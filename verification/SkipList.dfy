/**
 The skip list of xf86drmSL.c.

 Entries are linked in place at several levels.  The ghost field `nodes` lists the head and then
 the entries in key order; an entry's `forward[i]` must point at the next node tall enough to be
 linked at level i.  Everything about "the next tall node" is a fact about the sequence of heights,
 so the pointer surgery of insert and delete reduces to index arithmetic on that sequence.
 */
module Heights {

  // The first position after p whose height exceeds i, or |h| when there is none.
  ghost function NextTall(h: seq<nat>, p: nat, i: nat): (q: nat)
    requires p < |h|
    ensures p < q <= |h|
    ensures q < |h| ==> h[q] > i
    ensures forall r :: p < r < q ==> h[r] <= i
    decreases |h| - p
  {
    if p + 1 == |h| then |h| else if h[p + 1] > i then p + 1 else NextTall(h, p + 1, i)
  }

  // The last position before p whose height exceeds i.
  ghost function PrevTall(h: seq<nat>, p: nat, i: nat): (q: nat)
    requires 0 < p <= |h| && h[0] > i
    ensures q < p && h[q] > i
    ensures forall r :: q < r < p ==> h[r] <= i
  {
    if h[p - 1] > i then p - 1 else PrevTall(h, p - 1, i)
  }

  lemma NextTallUnique(h: seq<nat>, p: nat, i: nat, q: nat)
    requires p < q <= |h|
    requires q < |h| ==> h[q] > i
    requires forall r :: p < r < q ==> h[r] <= i
    ensures NextTall(h, p, i) == q
  {
  }

  lemma PrevTallUnique(h: seq<nat>, p: nat, i: nat, q: nat)
    requires q < p <= |h| && h[0] > i && h[q] > i
    requires forall r :: q < r < p ==> h[r] <= i
    ensures PrevTall(h, p, i) == q
  {
  }

  // Positions shift by one when something is inserted at p.
  ghost function Shift(p: nat, r: nat): nat {
    if r < p then r else r + 1
  }

  // (Inserted and Removed are recursive so that the verifier reads them only through ReadInserted.)
  ghost function Inserted<T>(s: seq<T>, p: nat, x: T): (r: seq<T>)
    requires p <= |s|
    ensures |r| == |s| + 1
  {
    if p == 0 then [x] + s else [s[0]] + Inserted(s[1..], p - 1, x)
  }

  ghost function Removed<T>(s: seq<T>, p: nat): (r: seq<T>)
    requires p < |s|
    ensures |r| == |s| - 1
  {
    if p == 0 then s[1..] else [s[0]] + Removed(s[1..], p - 1)
  }

  // Reading a sequence around an insertion at p.
  lemma ReadInserted<T>(s: seq<T>, p: nat, x: T, k: nat)
    requires p <= |s|
    ensures Inserted(s, p, x)[p] == x
    ensures k < |s| ==> Inserted(s, p, x)[Shift(p, k)] == s[k]
    ensures k < p ==> Inserted(s, p, x)[k] == s[k]
    ensures p < k <= |s| ==> Inserted(s, p, x)[k] == s[k - 1]
  {
    InsertedIsSplice(s, p, x);
  }

  lemma {:induction false} InsertedIsSplice<T>(s: seq<T>, p: nat, x: T)
    requires p <= |s|
    ensures Inserted(s, p, x) == s[..p] + [x] + s[p..]
  {
    if p > 0 {
      InsertedIsSplice(s[1..], p - 1, x);
      assert s[..p] == [s[0]] + s[1..][..p - 1];
      assert s[1..][p - 1..] == s[p..];
    }
  }

  lemma ReadInsertedAt<T>(s: seq<T>, p: nat, x: T, s': seq<T>, k: nat)
    requires p <= |s| && s' == Inserted(s, p, x) && k <= |s|
    ensures s'[k] == if k < p then s[k] else if k == p then x else s[k - 1]
  {
    ReadInserted(s, p, x, k);
  }

  lemma ReadInsertedAll<T>(s: seq<T>, p: nat, x: T, s': seq<T>)
    requires p <= |s| && s' == Inserted(s, p, x)
    ensures s'[p] == x
    ensures forall k {:trigger s'[k]} :: 0 <= k < p ==> s'[k] == s[k]
    ensures forall k {:trigger s'[k]} :: p < k < |s'| ==> s'[k] == s[k - 1]
  {
    ReadInsertedAt(s, p, x, s', p);
    forall k | 0 <= k < p ensures s'[k] == s[k] { ReadInsertedAt(s, p, x, s', k); }
    forall k | p < k < |s'| ensures s'[k] == s[k - 1] { ReadInsertedAt(s, p, x, s', k); }
  }

  lemma RemovedThenInserted<T>(s: seq<T>, p: nat)
    requires p < |s|
    ensures s == Inserted(Removed(s, p), p, s[p])
  {
    if p > 0 {
      RemovedThenInserted(s[1..], p - 1);
    }
  }

  lemma ReadRemovedAll<T>(s: seq<T>, p: nat, s': seq<T>)
    requires p < |s| && s' == Removed(s, p)
    ensures forall k {:trigger s'[k]} :: 0 <= k < p ==> s'[k] == s[k]
    ensures forall k {:trigger s'[k]} :: p <= k < |s'| ==> s'[k] == s[k + 1]
  {
    forall k | 0 <= k < |s'|
      ensures s'[k] == s[Shift(p, k)]
    {
      RemovedThenInserted(s, p);
      ReadInserted(s', p, s[p], k);
    }
  }

  // What follows the new node is what followed its predecessor at that level.
  lemma NextOfInserted(h: seq<nat>, p: nat, x: nat, i: nat)
    requires 0 < p <= |h| && h[0] > i && i < x
    ensures NextTall(Inserted(h, p, x), p, i) == NextTall(h, PrevTall(h, p, i), i) + 1
  {
    var h', u := Inserted(h, p, x), PrevTall(h, p, i);
    var q := NextTall(h, u, i);
    assert q >= p;
    ReadInsertedAll(h, p, x, h');
    NextTallUnique(h', p, i, q + 1);
  }

  // Every other node keeps its successor, except the predecessor of a tall new node.
  lemma NextBeforeInserted(h: seq<nat>, p: nat, x: nat, r: nat, i: nat)
    requires r < p <= |h| && h[0] > i && h[r] > i
    ensures NextTall(Inserted(h, p, x), r, i) ==
            if i < x && r == PrevTall(h, p, i) then p else Shift(p, NextTall(h, r, i))
  {
    var h', u, q := Inserted(h, p, x), PrevTall(h, p, i), NextTall(h, r, i);
    ReadInsertedAll(h, p, x, h');
    NextTallUnique(h', r, i, if i < x && r == u then p else Shift(p, q));
  }

  lemma NextAfterInserted(h: seq<nat>, p: nat, x: nat, r: nat, i: nat)
    requires p <= r < |h|
    ensures NextTall(Inserted(h, p, x), r + 1, i) == NextTall(h, r, i) + 1
  {
    var h', q := Inserted(h, p, x), NextTall(h, r, i);
    ReadInsertedAll(h, p, x, h');
    NextTallUnique(h', r + 1, i, q + 1);
  }

}

module SkipList {
  import opened Heights
  import Random

  const SL_MAX_LEVEL := 16
  const SL_RANDOM_SEED := 0xc01055a1

  // A value is a C pointer; NULL is zero.
  type Pointer = nat
  const NULL: Pointer := 0

  class Entry {
    const key: nat
    const value: Pointer
    const levels: nat
    var forward: seq<Entry?>   // the variable-sized array at the end of the struct

    constructor (maxLevel: int, key: nat, value: Pointer)
      ensures this.key == key && this.value == value
      ensures levels == 1 + if maxLevel < 0 || maxLevel > SL_MAX_LEVEL then SL_MAX_LEVEL else maxLevel
      ensures forward == seq(levels, _ => null)
    {
      var max := if maxLevel < 0 || maxLevel > SL_MAX_LEVEL then SL_MAX_LEVEL else maxLevel;
      this.key, this.value, this.levels := key, value, max + 1;
      this.forward := seq(max + 1, _ => null);
    }
  }

  // ----- the list as a sequence: n[0] is the head, n[1..] the entries -----

  ghost function HeightsOf(n: seq<Entry>): (h: seq<nat>)
    ensures |h| == |n| && forall k :: 0 <= k < |n| ==> h[k] == n[k].levels
  {
    seq(|n|, k requires 0 <= k < |n| => n[k].levels)
  }

  ghost function At(n: seq<Entry>, q: nat): Entry? {
    if q < |n| then n[q] else null
  }

  ghost predicate Distinct(n: seq<Entry>) {
    forall a, b :: 0 <= a < b < |n| ==> n[a] != n[b]
  }

  // Keys strictly ascend after the head; in particular no two entries share a key.
  ghost predicate Sorted(n: seq<Entry>) {
    && n != [] && Distinct(n)
    && (forall a, b :: 1 <= a < b < |n| ==> n[a].key < n[b].key)
  }

  // Position p is where `key` is or would be: everything before is smaller, nothing after is.
  ghost predicate IsPosition(n: seq<Entry>, key: nat, p: nat) {
    && 1 <= p <= |n|
    && (forall k :: 1 <= k < p ==> n[k].key < key)
    && (forall k :: p <= k < |n| ==> n[k].key >= key)
  }

  ghost function Position(n: seq<Entry>, key: nat): (p: nat)
    requires Sorted(n)
    ensures IsPosition(n, key, p)
  {
    PositionFrom(n, key, 1)
  }

  ghost function PositionFrom(n: seq<Entry>, key: nat, p: nat): (q: nat)
    requires Sorted(n) && 1 <= p <= |n|
    requires forall k :: 1 <= k < p ==> n[k].key < key
    ensures IsPosition(n, key, q)
    decreases |n| - p
  {
    if p == |n| || n[p].key >= key then p else PositionFrom(n, key, p + 1)
  }

  // The node that should follow n[p] at level i.
  ghost function Successor(n: seq<Entry>, p: nat, i: nat): Entry?
    requires p < |n|
  {
    At(n, NextTall(HeightsOf(n), p, i))
  }

  // The last node before position p that is linked at level i.
  ghost function Predecessor(n: seq<Entry>, p: nat, i: nat): (q: nat)
    requires 0 < p <= |n| && n[0].levels > i
    ensures q < p && n[q].levels > i
  {
    PrevTall(HeightsOf(n), p, i)
  }

  // Every forward pointer of n[p] leads to the next node linked at its level.
  ghost predicate LinkedNode(n: seq<Entry>, p: nat)
    requires p < |n|
    reads n[p]
  {
    && |n[p].forward| == n[p].levels
    && forall i :: 0 <= i < n[p].levels ==> n[p].forward[i] == Successor(n, p, i)
  }

  ghost predicate Linked(n: seq<Entry>)
    reads n
  {
    forall p :: 0 <= p < |n| ==> LinkedNode(n, p)
  }

  // The finite map the list stands for.
  ghost function MapOf(n: seq<Entry>): map<nat, Pointer>
    requires Sorted(n)
  {
    MapUpTo(n, |n|)
  }

  ghost function MapUpTo(n: seq<Entry>, end: nat): (m: map<nat, Pointer>)
    requires Sorted(n) && 1 <= end <= |n|
    ensures forall k :: 1 <= k < end ==> n[k].key in m && m[n[k].key] == n[k].value
    ensures forall key :: key in m ==> exists k :: 1 <= k < end && n[k].key == key
  {
    if end == 1 then map[] else MapUpTo(n, end - 1)[n[end - 1].key := n[end - 1].value]
  }

  // The key is bound exactly when the node at its position carries it.
  lemma LookupAtPosition(n: seq<Entry>, key: nat)
    requires Sorted(n)
    ensures var p := Position(n, key);
      && (key in MapOf(n) <==> p < |n| && n[p].key == key)
      && (p < |n| && n[p].key == key ==> MapOf(n)[key] == n[p].value)
  {
  }

  lemma InsertedKeepsOrder(n: seq<Entry>, p: nat, x: Entry)
    requires Sorted(n) && IsPosition(n, x.key, p) && x !in n && (p < |n| ==> n[p].key != x.key)
    ensures Sorted(Inserted(n, p, x))
  {
    ReadInsertedAll(n, p, x, Inserted(n, p, x));
  }

  lemma HeightsOfInserted(n: seq<Entry>, p: nat, x: Entry)
    requires p <= |n|
    ensures HeightsOf(Inserted(n, p, x)) == Inserted(HeightsOf(n), p, x.levels)
  {
    ReadInsertedAll(n, p, x, Inserted(n, p, x));
    ReadInsertedAll(HeightsOf(n), p, x.levels, Inserted(HeightsOf(n), p, x.levels));
  }

  lemma RemovedKeepsOrder(n: seq<Entry>, p: nat)
    requires Sorted(n) && 1 <= p < |n|
    ensures Sorted(Removed(n, p))
  {
    ReadRemovedAll(n, p, Removed(n, p));
  }

  ghost predicate Binds(n: seq<Entry>, m: map<nat, Pointer>) {
    forall k :: 1 <= k < |n| ==> n[k].key in m && m[n[k].key] == n[k].value
  }

  ghost predicate HasKey(n: seq<Entry>, key: nat) {
    exists k :: 1 <= k < |n| && n[k].key == key
  }

  // A map that agrees with every entry and has no other key is the list's map.
  lemma MapOfUnique(n: seq<Entry>, m: map<nat, Pointer>)
    requires Sorted(n) && Binds(n, m) && forall key :: key in m ==> HasKey(n, key)
    ensures m == MapOf(n)
  {
  }

  lemma MapOfInserted(n: seq<Entry>, p: nat, x: Entry)
    requires 1 <= p <= |n| && Sorted(n) && Sorted(Inserted(n, p, x))
    ensures MapOf(Inserted(n, p, x)) == MapOf(n)[x.key := x.value]
    ensures x.key !in MapOf(n)
  {
    var n' := Inserted(n, p, x);
    forall k: nat | k <= |n|
      ensures n'[k] == AfterInsertion(n, p, x, k)
    {
      ReadInsertedAt(n, p, x, n', k);
    }
    NewKey(n, p, x, n');
    InsertedBinds(n, p, x, n', MapOf(n)[x.key := x.value]);
    MapOfUnique(n', MapOf(n)[x.key := x.value]);
  }

  ghost function AfterInsertion(n: seq<Entry>, p: nat, x: Entry, k: nat): Entry
    requires p <= |n| && k <= |n|
  {
    if k < p then n[k] else if k == p then x else n[k - 1]
  }

  ghost predicate IsInserted(n: seq<Entry>, p: nat, x: Entry, n': seq<Entry>) {
    && p <= |n| && |n'| == |n| + 1
    && forall k {:trigger n'[k]} :: 0 <= k < |n'| ==> n'[k] == AfterInsertion(n, p, x, k)
  }

  lemma NewKey(n: seq<Entry>, p: nat, x: Entry, n': seq<Entry>)
    requires 1 <= p && Sorted(n) && Sorted(n') && IsInserted(n, p, x, n')
    ensures forall k :: 1 <= k < |n| ==> n[k].key != x.key
    ensures x.key !in MapOf(n)
  {
    forall k | 1 <= k < |n|
      ensures n[k].key != x.key
    {
      assert n[k] == n'[Shift(p, k)];
      assert n'[p] == x;
    }
  }

  lemma InsertedBinds(n: seq<Entry>, p: nat, x: Entry, n': seq<Entry>, m': map<nat, Pointer>)
    requires 1 <= p && Sorted(n) && IsInserted(n, p, x, n') && m' == MapOf(n)[x.key := x.value]
    requires forall k :: 1 <= k < |n| ==> n[k].key != x.key
    ensures Binds(n', m') && forall key :: key in m' ==> HasKey(n', key)
  {
    forall key | key in m'
      ensures HasKey(n', key)
    {
      if key != x.key {
        HasKeyStill(n, p, x, n', key);
      } else {
        assert n'[p] == x;
      }
    }
  }

  lemma HasKeyStill(n: seq<Entry>, p: nat, x: Entry, n': seq<Entry>, key: nat)
    requires 1 <= p && Sorted(n) && IsInserted(n, p, x, n') && key in MapOf(n)
    ensures HasKey(n', key)
  {
    var k :| 1 <= k < |n| && n[k].key == key;
    assert n'[Shift(p, k)] == n[k];
  }

  lemma UndoUpdate(m: map<nat, Pointer>, m': map<nat, Pointer>, key: nat, value: Pointer)
    requires m == m'[key := value] && key !in m'
    ensures m' == m - {key}
  {
  }

  // The node removed is the one put back.
  lemma MapOfRemoved(n: seq<Entry>, p: nat)
    requires 1 <= p < |n| && Sorted(n) && Sorted(Removed(n, p))
    ensures MapOf(Removed(n, p)) == MapOf(n) - {n[p].key}
  {
    RemovedThenInserted(n, p);
    MapOfInserted(Removed(n, p), p, n[p]);
    UndoUpdate(MapOf(n), MapOf(Removed(n, p)), n[p].key, n[p].value);
  }

  // Who follows the old nodes once x has been inserted at p.
  lemma SuccessorAroundInserted(n: seq<Entry>, p: nat, x: Entry, q: nat, j: nat)
    requires 1 <= p <= |n| && q < |n| && j < n[q].levels && j < n[0].levels
    ensures Successor(Inserted(n, p, x), Shift(p, q), j) ==
            if j < x.levels && q == Predecessor(n, p, j) then x else Successor(n, q, j)
  {
    var h := HeightsOf(n);
    HeightsOfInserted(n, p, x);
    if q < p { NextBeforeInserted(h, p, x.levels, q, j); } else { NextAfterInserted(h, p, x.levels, q, j); }
    ReadInserted(n, p, x, NextTall(h, q, j));
  }

  // Who follows x itself.
  lemma SuccessorOfInserted(n: seq<Entry>, p: nat, x: Entry, j: nat)
    requires 1 <= p <= |n| && j < x.levels && j < n[0].levels
    ensures Successor(Inserted(n, p, x), p, j) == Successor(n, Predecessor(n, p, j), j)
  {
    var h := HeightsOf(n);
    HeightsOfInserted(n, p, x);
    NextOfInserted(h, p, x.levels, j);
    ReadInserted(n, p, x, NextTall(h, PrevTall(h, p, j), j));
  }

  // The state of the pointers once x has been spliced in at p on the levels below i.
  ghost predicate SplicedNode(n: seq<Entry>, p: nat, x: Entry, i: nat, k: nat)
    requires 1 <= p <= |n| && k < |n| && i <= n[0].levels
    reads n[k]
  {
    && |n[k].forward| == n[k].levels
    && forall j :: 0 <= j < n[k].levels ==>
         n[k].forward[j] == if j < i && k == Predecessor(n, p, j) then x else Successor(n, k, j)
  }

  ghost predicate SplicedNodes(n: seq<Entry>, p: nat, x: Entry, i: nat)
    requires 1 <= p <= |n| && i <= n[0].levels
    reads n
  {
    forall k :: 0 <= k < |n| ==> SplicedNode(n, p, x, i, k)
  }

  ghost predicate SplicedEntry(n: seq<Entry>, p: nat, x: Entry, i: nat)
    requires 1 <= p <= |n| && i <= n[0].levels && i <= x.levels
    reads x
  {
    && |x.forward| == x.levels
    && forall j :: 0 <= j < i ==> x.forward[j] == Successor(n, Predecessor(n, p, j), j)
  }

  // With x spliced in on all its levels, every node of the longer list is linked.
  lemma SplicedIsLinked(n: seq<Entry>, p: nat, x: Entry, q: nat)
    requires 1 <= p <= |n| && q <= |n| && x.levels <= n[0].levels
    requires forall k :: 0 <= k < |n| ==> n[k].levels <= n[0].levels
    requires SplicedNodes(n, p, x, x.levels) && SplicedEntry(n, p, x, x.levels)
    ensures LinkedNode(Inserted(n, p, x), q)
  {
    ReadInserted(n, p, x, q);
    if q == p {
      forall j | 0 <= j < x.levels
        ensures x.forward[j] == Successor(Inserted(n, p, x), q, j)
      {
        SuccessorOfInserted(n, p, x, j);
      }
    } else {
      var k := if q < p then q else q - 1;
      assert SplicedNode(n, p, x, x.levels, k);
      forall j | 0 <= j < n[k].levels
        ensures n[k].forward[j] == Successor(Inserted(n, p, x), q, j)
      {
        SuccessorAroundInserted(n, p, x, k, j);
      }
    }
  }

  // Everything about the node sequence that does not look at pointers.
  ghost predicate WellFormed(n: seq<Entry>) {
    && Sorted(n)
    && n[0].levels == SL_MAX_LEVEL + 1 && n[0].key == 0 && n[0].value == NULL
    && (forall k :: 0 <= k < |n| ==> 1 <= n[k].levels <= SL_MAX_LEVEL + 1)
  }

  lemma InsertedIsWellFormed(n: seq<Entry>, p: nat, x: Entry)
    requires WellFormed(n) && IsPosition(n, x.key, p) && x !in n && (p < |n| ==> n[p].key != x.key)
    requires 1 <= x.levels <= SL_MAX_LEVEL + 1
    ensures WellFormed(Inserted(n, p, x))
  {
    InsertedKeepsOrder(n, p, x);
    InsertedLevels(n, p, x);
  }

  lemma InsertedLevels(n: seq<Entry>, p: nat, x: Entry)
    requires 1 <= p <= |n| && forall k :: 0 <= k < |n| ==> 1 <= n[k].levels <= SL_MAX_LEVEL + 1
    requires 1 <= x.levels <= SL_MAX_LEVEL + 1
    ensures var n' := Inserted(n, p, x);
      n'[0] == n[0] && n'[p] == x && forall k :: 0 <= k < |n'| ==> 1 <= n'[k].levels <= SL_MAX_LEVEL + 1
  {
  }

  lemma InsertedMembers(n: seq<Entry>, p: nat, x: Entry)
    requires p <= |n|
    ensures forall k :: 0 <= k <= |n| ==> Inserted(n, p, x)[k] == x || Inserted(n, p, x)[k] in n
  {
  }

  // The highest level in use is that of some entry, and no entry is higher.
  ghost predicate TopLevel(n: seq<Entry>, level: nat) {
    && (forall k :: 1 <= k < |n| ==> 2 <= n[k].levels <= level + 1)
    && (level > 0 ==> exists k :: 1 <= k < |n| && n[k].levels == level + 1)
  }

  lemma TopStays(n: seq<Entry>, p: nat, x: Entry, level: nat, level': nat)
    requires 1 <= p <= |n| && TopLevel(n, level) && 2 <= x.levels <= level' + 1
    requires level' == level || (level' == level + 1 && x.levels == level' + 1)
    ensures TopLevel(Inserted(n, p, x), level')
  {
    var n' := Inserted(n, p, x);
    ReadInsertedAll(n, p, x, n');
    if level' == level > 0 {
      var k :| 1 <= k < |n| && n[k].levels == level + 1;
      ReadInserted(n, p, x, k);
      assert n'[Shift(p, k)].levels == level' + 1;
    } else {
      assert n'[p] == x;
    }
  }

  // The state of the pointers once x has been unhooked on the levels below i; m lacks x.
  ghost predicate UnsplicedNode(m: seq<Entry>, p: nat, x: Entry, i: nat, k: nat)
    requires 1 <= p <= |m| && k < |m|
    reads m[k]
  {
    && |m[k].forward| == m[k].levels
    && forall j :: 0 <= j < m[k].levels ==>
         m[k].forward[j] ==
         if i <= j < x.levels && j < m[0].levels && k == Predecessor(m, p, j) then x else Successor(m, k, j)
  }

  ghost predicate UnsplicedNodes(m: seq<Entry>, p: nat, x: Entry, i: nat)
    requires 1 <= p <= |m|
    reads m
  {
    forall k :: 0 <= k < |m| ==> UnsplicedNode(m, p, x, i, k)
  }

  lemma StartUnsplicing(n: seq<Entry>, p: nat, m: seq<Entry>)
    requires WellFormed(n) && Linked(n) && 1 <= p < |n| && m == Removed(n, p) && WellFormed(m)
    ensures SplicedEntry(m, p, n[p], n[p].levels) && UnsplicedNodes(m, p, n[p], 0) && n[p] !in m
  {
    var x := n[p];
    RemovedThenInserted(n, p);
    ReadRemovedAll(n, p, m);
    assert LinkedNode(n, p);
    forall j | 0 <= j < x.levels
      ensures x.forward[j] == Successor(m, Predecessor(m, p, j), j)
    {
      SuccessorOfInserted(m, p, x, j);
    }
    forall k: nat | k < |m|
      ensures UnsplicedNode(m, p, x, 0, k)
    {
      StartUnsplicingNode(n, p, m, k);
    }
  }

  lemma StartUnsplicingNode(n: seq<Entry>, p: nat, m: seq<Entry>, k: nat)
    requires WellFormed(n) && Linked(n) && 1 <= p < |n| && m == Removed(n, p) && WellFormed(m) && k < |m|
    ensures UnsplicedNode(m, p, n[p], 0, k)
  {
    RemovedThenInserted(n, p);
    ReadInserted(m, p, n[p], k);
    assert LinkedNode(n, Shift(p, k));
    forall j | 0 <= j < m[k].levels
      ensures m[k].forward[j] ==
              if j < n[p].levels && k == Predecessor(m, p, j) then n[p] else Successor(m, k, j)
    {
      SuccessorAroundInserted(m, p, n[p], k, j);
    }
  }

  lemma PredecessorOfRemoved(n: seq<Entry>, p: nat, i: nat)
    requires 1 <= p < |n| && i < n[0].levels && i < Removed(n, p)[0].levels
    ensures n[Predecessor(n, p, i)] == Removed(n, p)[Predecessor(Removed(n, p), p, i)]
  {
    var m := Removed(n, p);
    ReadRemovedAll(n, p, m);
    PrevTallUnique(HeightsOf(m), p, i, Predecessor(n, p, i));
  }

  lemma RemovedIsWellFormed(n: seq<Entry>, p: nat)
    requires WellFormed(n) && 1 <= p < |n|
    ensures WellFormed(Removed(n, p)) && Removed(n, p)[0] == n[0]
  {
    RemovedKeepsOrder(n, p);
    ReadRemovedAll(n, p, Removed(n, p));
  }

  lemma RemovedLevels(n: seq<Entry>, p: nat, level: nat)
    requires 1 <= p < |n| && forall k :: 1 <= k < |n| ==> 2 <= n[k].levels <= level + 1
    ensures Removed(n, p)[0] == n[0]
    ensures forall k :: 1 <= k < |n| - 1 ==> 2 <= Removed(n, p)[k].levels <= level + 1
  {
  }

  lemma RemovedMembers(n: seq<Entry>, p: nat)
    requires 1 <= p < |n|
    ensures forall k :: 0 <= k < |n| - 1 ==> Removed(n, p)[k] in n
  {
  }

  // Of a generator that stands at `seed`, the draw that ends a run of odd ones, or the last one allowed.
  ghost predicate Draws(seed: nat, level: nat) {
    && 1 <= level <= SL_MAX_LEVEL
    && (forall i :: 1 <= i < level ==> Random.Nth(seed, i) % 2 == 1)
    && (Random.Nth(seed, level) % 2 == 0 || level == SL_MAX_LEVEL)
  }

  // The seed determines the level.
  lemma DrawsOneLevel(seed: nat, level: nat, other: nat)
    requires Draws(seed, level) && Draws(seed, other)
    ensures level == other
  {
    var least := if level < other then level else other;
    assert Random.Nth(seed, least) % 2 == 0 || least == SL_MAX_LEVEL;
  }

  // SLRandomLevel: as many numbers are drawn as the level says.
  method RandomLevel(rng: Random.State) returns (level: nat)
    requires rng.Valid()
    modifies rng
    ensures rng.Valid() && Draws(old(rng.seed), level) && rng.seed == Random.Nth(old(rng.seed), level)
  {
    level := 1;
    var draw := rng.Next();
    while draw % 2 == 1 && level < SL_MAX_LEVEL
      invariant rng.Valid() && 1 <= level <= SL_MAX_LEVEL && draw == rng.seed == Random.Nth(old(rng.seed), level)
      invariant forall i :: 1 <= i < level ==> Random.Nth(old(rng.seed), i) % 2 == 1
      decreases SL_MAX_LEVEL - level
    {
      level := level + 1;
      draw := rng.Next();
    }
  }

  // The top level of a new entry: a list grows by one level at a time.
  function TopFor(drawn: nat, level: nat): nat {
    if drawn > level then level + 1 else drawn
  }

  ghost predicate HasEntry(n: seq<Entry>, key: nat, levels: nat) {
    exists p :: 0 <= p < |n| && n[p].key == key && n[p].levels == levels
  }

  // The greatest key below `key`; the head's zero key and null value when no key is below.
  ghost predicate IsStrictPredecessor(n: seq<Entry>, key: nat, prevKey: nat, prevValue: Pointer)
    requires Sorted(n)
  {
    if exists k :: k in MapOf(n) && k < key
    then prevKey in MapOf(n) && prevKey < key && MapOf(n)[prevKey] == prevValue
         && forall k :: k in MapOf(n) && k < key ==> k <= prevKey
    else prevKey == 0 && prevValue == NULL
  }

  ghost predicate IsLeastNotBelow(n: seq<Entry>, key: nat, nextKey: nat, nextValue: Pointer)
    requires Sorted(n)
  {
    && nextKey in MapOf(n) && MapOf(n)[nextKey] == nextValue && key <= nextKey
    && forall k :: k in MapOf(n) && key <= k ==> nextKey <= k
  }

  ghost predicate SomeNotBelow(n: seq<Entry>, key: nat)
    requires Sorted(n)
  {
    exists k :: k in MapOf(n) && key <= k
  }

  lemma PredecessorAtPosition(n: seq<Entry>, key: nat, p: nat)
    requires WellFormed(n) && IsPosition(n, key, p)
    ensures IsStrictPredecessor(n, key, n[p - 1].key, n[p - 1].value)
  {
  }

  lemma SuccessorAtPosition(n: seq<Entry>, key: nat, p: nat)
    requires WellFormed(n) && IsPosition(n, key, p)
    ensures p < |n| ==> IsLeastNotBelow(n, key, n[p].key, n[p].value)
    ensures p < |n| <==> SomeNotBelow(n, key)
  {
  }

  class SkipList {
    var level: nat
    var count: nat
    var head: Entry
    var p0: Entry?            // position for iteration
    ghost var nodes: seq<Entry>

    // Structure, without the clauses about `level` and `count`.
    ghost predicate Shaped()
      reads this`nodes, this`head, nodes
    {
      && WellFormed(nodes) && head == nodes[0] && Linked(nodes)
    }

    ghost predicate Valid()
      reads this, nodes
    {
      && Shaped()
      && count == |nodes| - 1
      && level <= SL_MAX_LEVEL
      && TopLevel(nodes, level)
    }

    ghost function Map(): map<nat, Pointer>
      requires Sorted(nodes)
      reads this`nodes
    {
      MapOf(nodes)
    }

    constructor ()
      ensures Valid() && Map() == map[] && p0 == null
      ensures fresh(nodes)
    {
      level, count, p0 := 0, 0, null;
      var h := new Entry(SL_MAX_LEVEL, 0, NULL);
      head := h;
      nodes := [h];
    }

    // The inner loop of SLLocate: along level i as far as the keys are smaller.
    method WalkRight(from: Entry, key: nat, i: nat, ghost start: nat, ghost p: nat)
      returns (at: Entry, ghost pos: nat)
      requires Shaped() && p == Position(nodes, key)
      requires start < p && from == nodes[start] && HeightsOf(nodes)[start] > i
      ensures pos < p && at == nodes[pos] && HeightsOf(nodes)[pos] > i && NextTall(HeightsOf(nodes), pos, i) >= p
    {
      ghost var h := HeightsOf(nodes);
      at, pos := from, start;
      assert LinkedNode(nodes, pos);
      while at.forward[i] != null && at.forward[i].key < key
        invariant pos < p && at == nodes[pos] && h[pos] > i && LinkedNode(nodes, pos)
        decreases p - pos
      {
        pos := NextTall(h, pos, i);
        at := at.forward[i];
        assert LinkedNode(nodes, pos);
      }
    }

    // SLLocate: walk right, then down, remembering where each level was left.
    method Locate(key: nat) returns (entry: Entry?, update: seq<Entry?>)
      requires Shaped() && level <= SL_MAX_LEVEL
      ensures var p := Position(nodes, key);
        && entry == At(nodes, p)
        && |update| == SL_MAX_LEVEL + 1
        && (forall i :: 0 <= i <= level ==> update[i] == nodes[Predecessor(nodes, p, i)])
    {
      ghost var p, h := Position(nodes, key), HeightsOf(nodes);
      update := seq(SL_MAX_LEVEL + 1, _ => null);
      var at := head;
      ghost var pos: nat := 0;
      var i: int := level;
      while i >= 0
        invariant -1 <= i <= level
        invariant pos < p && at == nodes[pos] && h[pos] > i
        invariant |update| == SL_MAX_LEVEL + 1
        invariant forall j :: i < j <= level ==> update[j] == nodes[PrevTall(h, p, j)]
        invariant i < 0 ==> NextTall(h, pos, 0) >= p
      {
        at, pos := WalkRight(at, key, i, pos, p);
        PrevTallUnique(h, p, i, pos);
        update := update[i := at];
        i := i - 1;
      }
      assert LinkedNode(nodes, pos);
      entry := at.forward[0];
    }

    // One level of the pointer surgery of insert.
    static method SpliceLevel(x: Entry, u: Entry, i: nat, ghost n: seq<Entry>, ghost p: nat)
      requires 1 <= p <= |n| && x !in n && Distinct(n) && i < x.levels && i < n[0].levels
      requires u == n[Predecessor(n, p, i)]
      requires SplicedEntry(n, p, x, i) && SplicedNodes(n, p, x, i)
      modifies x`forward, u`forward
      ensures SplicedEntry(n, p, x, i + 1)
      ensures SplicedNodes(n, p, x, i + 1)
    {
      assert SplicedNode(n, p, x, i, Predecessor(n, p, i));
      x.forward := x.forward[i := u.forward[i]];
      u.forward := u.forward[i := x];
      ghost var i' := i + 1;
      forall k: nat | k < |n|
        ensures SplicedNode(n, p, x, i', k)
      {
        assert old(SplicedNode(n, p, x, i, k));
      }
    }

    // The pointer surgery of insert, for an entry that belongs at p.
    static method Splice(x: Entry, top: nat, update: seq<Entry?>, ghost n: seq<Entry>, ghost p: nat)
      requires WellFormed(n) && Linked(n) && 1 <= p <= |n| && x !in n
      requires top <= SL_MAX_LEVEL && x.levels == top + 1 == |x.forward| && |update| > top
      requires forall i :: 0 <= i <= top ==> update[i] == n[Predecessor(n, p, i)]
      modifies n, x
      ensures Linked(Inserted(n, p, x))
    {
      forall k: nat | k < |n|
        ensures SplicedNode(n, p, x, 0, k)
      {
        assert LinkedNode(n, k);
      }
      var i: nat := 0;
      while i <= top
        invariant i <= top + 1
        invariant SplicedEntry(n, p, x, i)
        invariant SplicedNodes(n, p, x, i)
      {
        SpliceLevel(x, update[i], i, n, p);
        i := i + 1;
      }
      forall q: nat | q <= |n|
        ensures LinkedNode(Inserted(n, p, x), q)
      {
        SplicedIsLinked(n, p, x, q);
      }
    }

    // drmSLInsert: returns 1 when the key is present, otherwise adds the binding and returns 0.
    // The entry is as tall as the level drawn, but at most one level above the list, which then grows.
    method Insert(key: nat, value: Pointer, rng: Random.State) returns (rc: int, ghost drawn: nat)
      requires Valid() && rng.Valid()
      modifies this`level, this`count, this`nodes, nodes, rng
      ensures Valid() && rng.Valid()
      ensures rc == if key in old(Map()) then 1 else 0
      ensures Map() == if key in old(Map()) then old(Map()) else old(Map())[key := value]
      ensures rc == 1 ==> nodes == old(nodes) && level == old(level) && rng.seed == old(rng.seed)
      ensures rc == 0 ==> Draws(old(rng.seed), drawn) && rng.seed == Random.Nth(old(rng.seed), drawn)
      ensures rc == 0 ==> HasEntry(nodes, key, if drawn <= old(level) then drawn + 1 else old(level) + 2)
      ensures rc == 0 ==> level == if drawn <= old(level) then old(level) else old(level) + 1
      ensures forall k :: 0 <= k < |nodes| ==> nodes[k] in old(nodes) || fresh(nodes[k])
    {
      var entry, update := Locate(key);
      LookupAtPosition(nodes, key);
      if entry != null && entry.key == key {
        return 1, 0;
      }
      ghost var p := Position(nodes, key);
      var newLevel := RandomLevel(rng);
      assert Valid();
      drawn := newLevel;
      InsertAt(newLevel, key, value, update, p);
      rc := 0;
    }

    // drmSLInsert after the key has not been found and a level has been drawn.
    method InsertAt(drawn: nat, key: nat, value: Pointer, found: seq<Entry?>, ghost p: nat)
      requires Valid() && IsPosition(nodes, key, p) && (p < |nodes| ==> nodes[p].key != key)
      requires 1 <= drawn <= SL_MAX_LEVEL && |found| == SL_MAX_LEVEL + 1
      requires forall i :: 0 <= i <= level ==> found[i] == nodes[Predecessor(nodes, p, i)]
      modifies this`level, this`count, this`nodes, nodes
      ensures Valid() && Map() == old(Map())[key := value]
      ensures HasEntry(nodes, key, TopFor(drawn, old(level)) + 1)
      ensures level == if drawn <= old(level) then old(level) else old(level) + 1
      ensures forall k :: 0 <= k < |nodes| ==> nodes[k] in old(nodes) || fresh(nodes[k])
    {
      ghost var n, oldLevel := nodes, level;
      var top, update := RaiseLevel(drawn, found, p);
      Add(top, key, value, update, p);
      TopStays(n, p, nodes[p], oldLevel, level);
      InsertedMembers(n, p, nodes[p]);
    }

    // A drawn level above the list's raises the list by one, and the new level starts at the head.
    method RaiseLevel(drawn: nat, found: seq<Entry?>, ghost p: nat) returns (top: nat, update: seq<Entry?>)
      requires WellFormed(nodes) && head == nodes[0] && TopLevel(nodes, level) && 1 <= p <= |nodes|
      requires 1 <= drawn <= SL_MAX_LEVEL && level <= SL_MAX_LEVEL && |found| == SL_MAX_LEVEL + 1
      requires forall i :: 0 <= i <= level ==> found[i] == nodes[Predecessor(nodes, p, i)]
      modifies this`level
      ensures 1 <= top <= level <= SL_MAX_LEVEL && |update| == |found|
      ensures top == TopFor(drawn, old(level)) && level == if drawn > old(level) then top else old(level)
      ensures forall i :: 0 <= i <= top ==> update[i] == nodes[Predecessor(nodes, p, i)]
    {
      top, update := drawn, found;
      if top > level {
        level := level + 1;
        top := level;
        update := update[top := head];
        PrevTallUnique(HeightsOf(nodes), p, top, 0);
      }
    }

    // The rest of drmSLInsert, once the levels to link have been settled.
    method Add(top: nat, key: nat, value: Pointer, update: seq<Entry?>, ghost p: nat)
      requires Shaped() && IsPosition(nodes, key, p) && (p < |nodes| ==> nodes[p].key != key)
      requires top <= SL_MAX_LEVEL && |update| > top
      requires forall i :: 0 <= i <= top ==> update[i] == nodes[Predecessor(nodes, p, i)]
      modifies this`count, this`nodes, nodes
      ensures Shaped() && count == old(count) + 1 && p < |nodes|
      ensures nodes == Inserted(old(nodes), p, nodes[p]) && fresh(nodes[p])
      ensures nodes[p].key == key && nodes[p].levels == top + 1
      ensures Map() == old(Map())[key := value]
    {
      ghost var n := nodes;
      var x := new Entry(top, key, value);
      LinkIn(x, top, update, p);
      MapOfInserted(n, p, x);
    }

    method LinkIn(x: Entry, top: nat, update: seq<Entry?>, ghost p: nat)
      requires Shaped() && IsPosition(nodes, x.key, p) && (p < |nodes| ==> nodes[p].key != x.key)
      requires x !in nodes && top <= SL_MAX_LEVEL && x.levels == top + 1 == |x.forward| && |update| > top
      requires x.levels >= 1
      requires forall i :: 0 <= i <= top ==> update[i] == nodes[Predecessor(nodes, p, i)]
      modifies this`count, this`nodes, nodes, x
      ensures Shaped() && count == old(count) + 1
      ensures p < |nodes| && nodes[p] == x && nodes == Inserted(old(nodes), p, x)
    {
      ghost var n := nodes;
      ghost var n' := Inserted(n, p, x);
      Splice(x, top, update, n, p);
      InsertedIsWellFormed(n, p, x);
      ReadInserted(n, p, x, 0);
      nodes, count := n', count + 1;
    }

    // One level of the pointer surgery of delete.
    static method UnspliceLevel(x: Entry, u: Entry, i: nat, ghost m: seq<Entry>, ghost p: nat)
      requires 1 <= p <= |m| && x !in m && Distinct(m) && i < m[0].levels
      requires u == m[Predecessor(m, p, i)]
      requires x.levels <= m[0].levels && SplicedEntry(m, p, x, x.levels) && UnsplicedNodes(m, p, x, i)
      modifies u`forward
      ensures SplicedEntry(m, p, x, x.levels) && UnsplicedNodes(m, p, x, i + 1)
    {
      assert UnsplicedNode(m, p, x, i, Predecessor(m, p, i));
      if u.forward[i] == x {
        u.forward := u.forward[i := x.forward[i]];
      }
      ghost var i' := i + 1;
      forall k: nat | k < |m|
        ensures UnsplicedNode(m, p, x, i', k)
      {
        assert old(UnsplicedNode(m, p, x, i, k));
      }
    }

    method Unsplice(x: Entry, update: seq<Entry?>, ghost n: seq<Entry>, ghost p: nat)
      requires WellFormed(n) && Linked(n) && 1 <= p < |n| && n[p] == x
      requires x.levels <= level + 1 <= |update| && level <= SL_MAX_LEVEL
      requires forall i :: 0 <= i <= level ==> update[i] == n[Predecessor(n, p, i)]
      modifies n
      ensures Linked(Removed(n, p)) && WellFormed(Removed(n, p))
    {
      ghost var m := Removed(n, p);
      RemovedIsWellFormed(n, p);
      StartUnsplicing(n, p, m);
      var i: nat := 0;
      while i <= level
        invariant i <= level + 1
        invariant SplicedEntry(m, p, x, x.levels) && UnsplicedNodes(m, p, x, i)
      {
        PredecessorOfRemoved(n, p, i);
        UnspliceLevel(x, update[i], i, m, p);
        i := i + 1;
      }
      forall k: nat | k < |m|
        ensures LinkedNode(m, k)
      {
        assert UnsplicedNode(m, p, x, i, k);
      }
    }

    // drmSLDelete: returns 1 when the key is absent, otherwise removes the binding and returns 0.
    method Delete(key: nat) returns (rc: int)
      requires Valid()
      modifies this`level, this`count, this`nodes, nodes
      ensures Valid()
      ensures rc == if key in old(Map()) then 0 else 1
      ensures Map() == old(Map()) - {key}
      ensures forall k :: 0 <= k < |nodes| ==> nodes[k] in old(nodes)
    {
      var entry, update := Locate(key);
      ghost var n, p := nodes, Position(nodes, key);
      LookupAtPosition(n, key);
      if entry == null || entry.key != key {
        return 1;
      }
      Remove(entry, update, p);
      MapOfRemoved(n, p);
      RemovedMembers(n, p);
      rc := 0;
    }

    // The rest of drmSLDelete, once the entry has been found at p.
    method Remove(entry: Entry, update: seq<Entry?>, ghost p: nat)
      requires Valid() && 1 <= p < |nodes| && nodes[p] == entry && |update| == SL_MAX_LEVEL + 1
      requires forall i :: 0 <= i <= level ==> update[i] == nodes[Predecessor(nodes, p, i)]
      modifies this`level, this`count, this`nodes, nodes
      ensures Valid() && nodes == Removed(old(nodes), p)
    {
      ghost var n := nodes;
      Unsplice(entry, update, n, p);
      RemovedLevels(n, p, level);
      nodes := Removed(n, p);
      LowerLevel();
      count := count - 1;
    }

    // The level shrinks past every level that has become empty.
    method LowerLevel()
      requires Shaped() && level <= SL_MAX_LEVEL
      requires forall k :: 1 <= k < |nodes| ==> 2 <= nodes[k].levels <= level + 1
      modifies this`level
      ensures level <= SL_MAX_LEVEL && TopLevel(nodes, level)
    {
      while level > 0 && head.forward[level] == null
        invariant level <= SL_MAX_LEVEL && LinkedNode(nodes, 0)
        invariant forall k :: 1 <= k < |nodes| ==> 2 <= nodes[k].levels <= level + 1
      {
        assert NextTall(HeightsOf(nodes), 0, level) == |nodes|;
        level := level - 1;
      }
      if level > 0 {
        var q := NextTall(HeightsOf(nodes), 0, level);
        assert nodes[q].levels == level + 1;
      }
    }

    // drmSLLookup: what it stores on success is the entry itself, not the entry's value.
    method Lookup(key: nat) returns (rc: int, found: Entry?)
      requires Valid()
      ensures rc == if key in Map() then 0 else -1
      ensures key in Map() <==> found != null
      ensures found != null ==> found in nodes && found.key == key && found.value == Map()[key]
    {
      var entry, update := Locate(key);
      LookupAtPosition(nodes, key);
      if entry != null && entry.key == key {
        return 0, entry;
      }
      rc, found := -1, null;
    }

    // drmSLLookupNeighbors: the strict predecessor (the head, with key 0, when there is none)
    // and the least key that is not below.
    method LookupNeighbors(key: nat)
      returns (rc: int, prevKey: nat, prevValue: Pointer, nextKey: nat, nextValue: Pointer)
      requires Valid()
      ensures IsStrictPredecessor(nodes, key, prevKey, prevValue)
      ensures rc == 2 ==> IsLeastNotBelow(nodes, key, nextKey, nextValue)
      ensures rc == 2 <==> SomeNotBelow(nodes, key)
      ensures rc != 2 ==> rc == 1 && nextKey == key && nextValue == NULL
    {
      var _, update := Locate(key);
      ghost var p := Position(nodes, key);
      rc, prevKey, prevValue, nextKey, nextValue := ReadNeighbors(key, update, p);
      PredecessorAtPosition(nodes, key, p);
      SuccessorAtPosition(nodes, key, p);
    }

    // The second half of drmSLLookupNeighbors.
    method ReadNeighbors(key: nat, update: seq<Entry?>, ghost p: nat)
      returns (rc: int, prevKey: nat, prevValue: Pointer, nextKey: nat, nextValue: Pointer)
      requires Valid() && 1 <= p <= |nodes|
      requires |update| > 0 && update[0] == nodes[Predecessor(nodes, p, 0)]
      ensures prevKey == nodes[p - 1].key && prevValue == nodes[p - 1].value
      ensures p < |nodes| ==> rc == 2 && nextKey == nodes[p].key && nextValue == nodes[p].value
      ensures p == |nodes| ==> rc == 1 && nextKey == key && nextValue == NULL
    {
      PrevTallUnique(HeightsOf(nodes), p, 0, p - 1);
      NextTallUnique(HeightsOf(nodes), p - 1, 0, p);
      assert LinkedNode(nodes, p - 1);
      rc := 0;
      prevKey, nextKey, prevValue, nextValue := key, key, NULL, NULL;
      if update[0] != null {
        prevKey, prevValue := update[0].key, update[0].value;
        rc := rc + 1;
        if update[0].forward[0] != null {
          nextKey, nextValue := update[0].forward[0].key, update[0].forward[0].value;
          rc := rc + 1;
        }
      }
    }

    // Where the iteration stands: p0 is the node at `pos`, or null at the end.
    ghost predicate Iterating(pos: nat)
      reads this
    {
      1 <= pos <= |nodes| && p0 == At(nodes, pos)
    }

    // drmSLNext: hands out the entry at the iteration position and moves one to the right.
    method Next(ghost pos: nat) returns (rc: int, key: nat, value: Pointer)
      requires Valid() && Iterating(pos)
      modifies this`p0
      ensures Valid()
      ensures pos < |nodes| ==> rc == 1 && key == nodes[pos].key && value == nodes[pos].value && Iterating(pos + 1)
      ensures pos == |nodes| ==> rc == 0 && Iterating(pos)
    {
      key, value := 0, NULL;
      var entry := p0;
      if entry != null {
        assert LinkedNode(nodes, pos);
        NextTallUnique(HeightsOf(nodes), pos, 0, pos + 1);
        p0 := entry.forward[0];
        return 1, entry.key, entry.value;
      }
      p0 := null;
      rc := 0;
    }

    // drmSLFirst
    method First() returns (rc: int, key: nat, value: Pointer)
      requires Valid()
      modifies this`p0
      ensures Valid()
      ensures |nodes| > 1 ==> rc == 1 && key == nodes[1].key && value == nodes[1].value && Iterating(2)
      ensures |nodes| == 1 ==> rc == 0 && Iterating(1)
    {
      assert LinkedNode(nodes, 0);
      NextTallUnique(HeightsOf(nodes), 0, 0, 1);
      p0 := head.forward[0];
      rc, key, value := Next(1);
    }

    // The loop every client writes: First, then Next until it fails.  It delivers the whole map
    // in ascending key order.
    method Enumerate() returns (pairs: seq<(nat, Pointer)>)
      requires Valid()
      modifies this`p0
      ensures Valid() && Ascending(pairs)
      ensures forall k, v :: (k, v) in pairs <==> k in Map() && Map()[k] == v
    {
      pairs := [];
      var rc, key, value := First();
      ghost var pos := 1;
      while rc == 1
        invariant Valid() && 1 <= pos <= |nodes| && |pairs| == pos - 1
        invariant rc == 1 ==> pos < |nodes| && key == nodes[pos].key && value == nodes[pos].value && Iterating(pos + 1)
        invariant rc != 1 ==> pos == |nodes|
        invariant forall k :: 0 <= k < |pairs| ==> pairs[k] == (nodes[k + 1].key, nodes[k + 1].value)
        decreases |nodes| - pos
      {
        pairs := pairs + [(key, value)];
        rc, key, value := Next(pos + 1);
        pos := pos + 1;
      }
      PairsAreTheMap(nodes, pairs);
    }
  }

  ghost predicate Ascending(pairs: seq<(nat, Pointer)>) {
    forall a, b :: 0 <= a < b < |pairs| ==> pairs[a].0 < pairs[b].0
  }

  lemma PairsAreTheMap(n: seq<Entry>, pairs: seq<(nat, Pointer)>)
    requires Sorted(n) && |pairs| == |n| - 1
    requires forall k :: 0 <= k < |pairs| ==> pairs[k] == (n[k + 1].key, n[k + 1].value)
    ensures Ascending(pairs)
    ensures forall k, v :: (k, v) in pairs <==> k in MapOf(n) && MapOf(n)[k] == v
  {
    forall k, v | k in MapOf(n) && MapOf(n)[k] == v
      ensures (k, v) in pairs
    {
      var i :| 1 <= i < |n| && n[i].key == k;
      assert pairs[i - 1] == (k, v);
    }
    forall k, v | (k, v) in pairs
      ensures k in MapOf(n) && MapOf(n)[k] == v
    {
      var i :| 0 <= i < |pairs| && pairs[i] == (k, v);
      assert n[i + 1].key in MapOf(n);
    }
  }

  // ----- the levels as chains -----

  // The entries linked at level i, in order.
  ghost function Chain(entries: seq<Entry>, i: nat): seq<Entry> {
    if entries == [] then [] else
      (if entries[0].levels > i then [entries[0]] else []) + Chain(entries[1..], i)
  }

  // Following forward[i] from `from` visits exactly `chain` and then stops.
  ghost predicate Visits(from: Entry, chain: seq<Entry>, i: nat)
    requires i < from.levels && forall e :: e in chain ==> i < e.levels
    reads from, chain
    decreases |chain|
  {
    && i < |from.forward|
    && if chain == [] then from.forward[i] == null
       else from.forward[i] == chain[0] && Visits(chain[0], chain[1..], i)
  }

  ghost predicate Sublist(a: seq<Entry>, b: seq<Entry>) {
    a == [] || (b != [] && if a[0] == b[0] then Sublist(a[1..], b[1..]) else Sublist(a, b[1..]))
  }

  lemma ChainMembers(entries: seq<Entry>, i: nat)
    ensures forall e :: e in Chain(entries, i) <==> e in entries && e.levels > i
  {
  }

  lemma ChainMember(entries: seq<Entry>, i: nat, chain: seq<Entry>, k: nat)
    requires chain == Chain(entries, i) && k < |chain|
    ensures chain[k] in entries && chain[k].levels > i
  {
    ChainMembers(entries, i);
    assert chain[k] in chain;
  }

  // Skipping the nodes too low for level i.
  lemma ChainFrom(n: seq<Entry>, p: nat, q: nat, i: nat)
    requires p <= q <= |n| && forall k :: p <= k < q ==> n[k].levels <= i
    requires q < |n| ==> n[q].levels > i
    ensures Chain(n[p..], i) == if q == |n| then [] else [n[q]] + Chain(n[q + 1..], i)
    decreases q - p
  {
    if p < q {
      ChainFrom(n, p + 1, q, i);
      assert n[p..][1..] == n[p + 1..];
    } else if q < |n| {
      assert n[q..][1..] == n[q + 1..];
    }
  }

  lemma VisitsChain(n: seq<Entry>, p: nat, i: nat)
    requires Linked(n) && p < |n| && i < n[p].levels
    ensures forall e :: e in Chain(n[p + 1..], i) ==> e.levels > i
    ensures Visits(n[p], Chain(n[p + 1..], i), i)
    decreases |n| - p
  {
    ChainMembers(n[p + 1..], i);
    assert LinkedNode(n, p);
    var q := NextTall(HeightsOf(n), p, i);
    ChainFrom(n, p + 1, q, i);
    if q < |n| {
      VisitsChain(n, q, i);
      assert Chain(n[p + 1..], i)[1..] == Chain(n[q + 1..], i);
    }
  }

  lemma {:induction false} ChainBelow(entries: seq<Entry>, i: nat)
    ensures Sublist(Chain(entries, i + 1), Chain(entries, i))
  {
    if entries != [] {
      var rest, upper, lower := entries[1..], Chain(entries, i + 1), Chain(entries, i);
      ChainBelow(rest, i);
      if entries[0].levels > i + 1 {
        assert upper[1..] == Chain(rest, i + 1) && lower[1..] == Chain(rest, i);
      } else if entries[0].levels > i {
        assert upper == Chain(rest, i + 1) && lower[1..] == Chain(rest, i);
        ChainMembers(rest, i + 1);
        SublistSkip(upper, lower);
      } else {
        assert upper == Chain(rest, i + 1) && lower == Chain(rest, i);
      }
    }
  }

  // A sublist of the tail is a sublist of the whole.
  lemma SublistSkip(a: seq<Entry>, b: seq<Entry>)
    requires b != [] && Sublist(a, b[1..])
    ensures Sublist(a, b)
  {
    if a != [] && a[0] == b[0] {
      SublistTail(a, b[1..]);
    }
  }

  lemma SublistTail(a: seq<Entry>, b: seq<Entry>)
    requires a != [] && Sublist(a, b)
    ensures Sublist(a[1..], b)
  {
  }

  ghost predicate AscendingKeys(c: seq<Entry>) {
    forall a, b :: 0 <= a < b < |c| ==> c[a].key < c[b].key
  }

  lemma ChainAscends(entries: seq<Entry>, i: nat)
    requires AscendingKeys(entries)
    ensures AscendingKeys(Chain(entries, i))
  {
    if entries != [] {
      var rest := Chain(entries[1..], i);
      ChainAscends(entries[1..], i);
      assert forall e :: e in entries[1..] ==> entries[0].key < e.key;
      forall k | 0 <= k < |rest|
        ensures entries[0].key < rest[k].key
      {
        ChainMember(entries[1..], i, rest, k);
      }
    }
  }

  lemma EmptyChain(entries: seq<Entry>, i: nat)
    requires forall k :: 0 <= k < |entries| ==> entries[k].levels <= i
    ensures Chain(entries, i) == []
  {
  }

  // The shape every run keeps: each level is a strictly ascending chain that ends in null and is
  // a sublist of the level below.
  lemma LevelsAreNestedChains(l: SkipList, i: nat)
    requires l.Valid() && i <= SL_MAX_LEVEL
    ensures var chain := Chain(l.nodes[1..], i);
      && (forall e :: e in chain ==> e.levels > i)
      && Visits(l.head, chain, i)
      && AscendingKeys(chain)
      && Sublist(Chain(l.nodes[1..], i + 1), chain)
  {
    VisitsChain(l.nodes, 0, i);
    ChainAscends(l.nodes[1..], i);
    ChainBelow(l.nodes[1..], i);
  }

  // Nothing is linked above the current level, the top level is in use unless it is 0, and the
  // bottom level holds every entry.  Because a drawn level is at least one, so does level 1.
  lemma LevelsInUse(l: SkipList, i: nat)
    requires l.Valid() && i <= SL_MAX_LEVEL
    ensures var entries := l.nodes[1..];
      && (i > l.level ==> Chain(entries, i) == [])
      && (i == l.level > 0 ==> Chain(entries, i) != [])
      && (i <= 1 ==> Chain(entries, i) == entries && |entries| == l.count)
  {
    var entries := l.nodes[1..];
    if i > l.level {
      EmptyChain(entries, i);
    }
    if i == l.level > 0 {
      var k :| 1 <= k < |l.nodes| && l.nodes[k].levels == i + 1;
      ChainMembers(entries, i);
      assert entries[k - 1] == l.nodes[k];
    }
    if i <= 1 {
      WholeChain(entries, i);
    }
  }

  lemma WholeChain(entries: seq<Entry>, i: nat)
    requires forall k :: 0 <= k < |entries| ==> entries[k].levels > i
    ensures Chain(entries, i) == entries
  {
  }

  // ----- whole runs -----

  datatype Op = Insert(key: nat, value: Pointer) | Delete(key: nat) | Lookup(key: nat)

  // What a finite map would do.
  function OnMap(m: map<nat, Pointer>, op: Op): (r: (map<nat, Pointer>, int)) {
    match op
    case Insert(key, value) => if key in m then (m, 1) else (m[key := value], 0)
    case Delete(key) => (m - {key}, if key in m then 0 else 1)
    case Lookup(key) => (m, if key in m then 0 else -1)
  }

  function RunOnMap(m: map<nat, Pointer>, ops: seq<Op>): (r: (map<nat, Pointer>, seq<int>)) {
    if ops == [] then (m, []) else
      var (m', codes) := RunOnMap(m, ops[..|ops| - 1]);
      var (m'', code) := OnMap(m', ops[|ops| - 1]);
      (m'', codes + [code])
  }

  lemma RunOneMore(m: map<nat, Pointer>, ops: seq<Op>, i: nat)
    requires i < |ops|
    ensures var (m', codes) := RunOnMap(m, ops[..i]); var (m'', code) := OnMap(m', ops[i]);
      RunOnMap(m, ops[..i + 1]) == (m'', codes + [code])
  {
    assert ops[..i + 1][..i] == ops[..i];
  }

  method Apply(l: SkipList, op: Op, rng: Random.State) returns (code: int)
    requires l.Valid() && rng.Valid()
    modifies l`level, l`count, l`nodes, l.nodes, rng
    ensures l.Valid() && rng.Valid()
    ensures (l.Map(), code) == OnMap(old(l.Map()), op)
    ensures forall k :: 0 <= k < |l.nodes| ==> l.nodes[k] in old(l.nodes) || fresh(l.nodes[k])
  {
    if op.Insert? {
      ghost var drawn;
      code, drawn := l.Insert(op.key, op.value, rng);
      return;
    }
    if op.Delete? {
      code := l.Delete(op.key);
      return;
    }
    var found;
    code, found := l.Lookup(op.key);
  }

  // Any sequence of calls, with levels drawn from any generator state, returns the codes a finite
  // map returns and leaves the same bindings.
  method Run(ops: seq<Op>, rng: Random.State) returns (l: SkipList, codes: seq<int>)
    requires rng.Valid()
    modifies rng
    ensures l.Valid() && l.Map() == RunOnMap(map[], ops).0 && codes == RunOnMap(map[], ops).1
  {
    l := new SkipList();
    codes := [];
    var i := 0;
    while i < |ops|
      invariant i <= |ops| && l.Valid() && rng.Valid()
      invariant fresh(l) && fresh(l.nodes)
      invariant (l.Map(), codes) == RunOnMap(map[], ops[..i])
    {
      RunOneMore(map[], ops, i);
      var code := Apply(l, ops[i], rng);
      codes := codes + [code];
      i := i + 1;
    }
    assert ops[..i] == ops;
  }
}
