/**
 The ageing buffer cache of etnaviv_bo_cache.c.

 Freed buffers wait in buckets by size, oldest first, and are dropped after a second.  Requests are
 rounded up to a bucket size, so that a recycled buffer always fits.
 */
module BoCache {
  import opened Options

  const PAGE := 4096
  const TWO_32 := 0x1_0000_0000
  const MAX_BUCKETS := 56
  const NUM_BUCKETS := 55
  const CACHE_MAX_SIZE := 64 * 1024 * 1024

  datatype Bo = Bo(id: nat, size: nat, flags: nat, freeTime: int)
  datatype Bucket = Bucket(size: nat, list: seq<Bo>)

  // ----- bucket sizes -----

  function Power2(n: nat): nat {
    if n == 0 then 1 else 2 * Power2(n - 1)
  }

  // Four sizes between each power of two and the next, but for the first.
  function BucketSize(i: nat): nat {
    if i < 3 then PAGE * (i + 1) else (4 + (i - 3) % 4) * (PAGE * Power2((i - 3) / 4))
  }

  // Sizes grow, by no more than a quarter once they are four pages ...
  lemma SizesGrow(i: nat)
    ensures 0 < BucketSize(i) < BucketSize(i + 1)
    ensures i >= 3 ==> 4 * BucketSize(i + 1) <= 5 * BucketSize(i)
  {
    if i >= 3 {
      PowerIsPositive((i - 3) / 4);
      assert i % 4 == 2 ==> (i + 1 - 3) / 4 == (i - 3) / 4 + 1;
    }
  }

  lemma {:induction false} PowerIsPositive(n: nat)
    ensures Power2(n) > 0
  {
    if n > 0 {
      PowerIsPositive(n - 1);
    }
  }

  lemma {:induction false} SizesAreOrdered(i: nat, j: nat)
    requires i < j
    ensures BucketSize(i) < BucketSize(j)
  {
    SizesGrow(j - 1);
    if i < j - 1 {
      SizesAreOrdered(i, j - 1);
    }
  }

  // The bucket sizes are the numbers of pages below 2^15 with at most three significant bits.
  ghost predicate ThreeBits(size: nat) {
    exists c: nat, n: nat :: 1 <= c <= 7 && n <= 12 && size == Shifted(c, n)
  }

  function Shifted(c: nat, n: nat): nat {
    PAGE * (c * Power2(n))
  }

  lemma SizesHaveThreeBits(size: nat)
    ensures ThreeBits(size) <==> exists i :: 0 <= i < NUM_BUCKETS && size == BucketSize(i)
  {
    if c: nat, n: nat :| 1 <= c <= 7 && n <= 12 && size == Shifted(c, n) {
      IsBucketSize(c, n);
    }
    if i :| 0 <= i < NUM_BUCKETS && size == BucketSize(i) {
      if i < 3 {
        assert Power2(0) == 1 && size == Shifted(i + 1, 0);
      } else {
        var c, n := 4 + (i - 3) % 4, (i - 3) / 4;
        Reordered(c, Power2(n));
        assert size == Shifted(c, n);
      }
    }
  }

  lemma IsBucketSize(c: nat, n: nat)
    requires 1 <= c <= 7 && n <= 12
    ensures exists i :: 0 <= i < NUM_BUCKETS && Shifted(c, n) == BucketSize(i)
  {
    if c >= 4 {
      IsLargeSize(c, n);
    } else if n == 0 {
      assert Shifted(c, n) == BucketSize(c - 1);
    } else if c >= 2 {
      Doubled(c, n);
      IsLargeSize(2 * c, n - 1);
    } else if n == 1 {
      assert Power2(0) == 1 && Shifted(c, n) == BucketSize(1);
    } else {
      Doubled(c, n);
      Doubled(2 * c, n - 1);
      IsLargeSize(4 * c, n - 2);
    }
  }

  lemma Doubled(c: nat, n: nat)
    requires n > 0
    ensures Shifted(c, n) == Shifted(2 * c, n - 1)
  {
    assert c * Power2(n) == 2 * c * Power2(n - 1);
  }

  lemma IsLargeSize(c: nat, n: nat)
    requires 4 <= c <= 7 && n <= 12
    ensures exists i :: 0 <= i < NUM_BUCKETS && Shifted(c, n) == BucketSize(i)
  {
    SizeAt(n, c - 4);
    Reordered(c, Power2(n));
    assert Shifted(c, n) == BucketSize(3 + 4 * n + (c - 4));
  }

  lemma Reordered(c: nat, p: nat)
    ensures c * (PAGE * p) == PAGE * (c * p)
  {
  }

  // ----- rounding a request -----

  // ALIGN(size, 4096) on uint32_t
  function PageRound(size: nat): nat {
    var sum := (size + PAGE - 1) % TWO_32;
    sum - sum % PAGE
  }

  // The rounded size is the least whole number of pages, and no smaller than the request, exactly
  // if the sum does not wrap.
  lemma PageRoundIsExact(size: nat)
    requires size < TWO_32
    ensures PageRound(size) % PAGE == 0
    ensures size <= PageRound(size) <==> size + PAGE - 1 < TWO_32
    ensures size + PAGE - 1 < TWO_32 ==> PageRound(size) < size + PAGE
  {
  }

  // The smallest bucket for a whole number of pages is less than a quarter larger.
  lemma BucketFits(size: nat, i: nat)
    requires 0 < size && size % PAGE == 0 && size <= BucketSize(i)
    requires i > 0 ==> BucketSize(i - 1) < size
    ensures 4 * BucketSize(i) < 5 * size
  {
    if i >= 4 {
      SizesGrow(i - 1);
    } else {
      NextPage(size, i);
    }
  }

  lemma NextPage(size: nat, i: nat)
    requires i < 4 && 0 < size && size % PAGE == 0 && PAGE * i < size <= PAGE * (i + 1)
    ensures size == PAGE * (i + 1)
  {
  }

  // ----- ages -----

  ghost predicate OldestFirst(list: seq<Bo>) {
    forall i, j :: 0 <= i < j < |list| ==> list[i].freeTime <= list[j].freeTime
  }

  // A buffer is kept for a second after it was freed; at time 0 everything is dropped.
  predicate Stays(bo: Bo, time: int) {
    time != 0 && time - bo.freeTime <= 1
  }

  // What the clean-up leaves of a bucket's list.
  function Trim(list: seq<Bo>, time: int): seq<Bo> {
    if list == [] || Stays(list[0], time) then list else Trim(list[1..], time)
  }

  function Staying(list: seq<Bo>, time: int): seq<Bo> {
    if list == [] then []
    else (if Stays(list[0], time) then [list[0]] else []) + Staying(list[1..], time)
  }

  lemma {:induction false} AllStay(list: seq<Bo>, time: int)
    requires forall i :: 0 <= i < |list| ==> Stays(list[i], time)
    ensures Staying(list, time) == list
  {
    if list != [] {
      AllStay(list[1..], time);
    }
  }

  // Stopping at the first buffer that may stay misses none that must go.
  lemma {:induction false} TrimIsExact(list: seq<Bo>, time: int)
    requires OldestFirst(list)
    ensures Trim(list, time) == Staying(list, time)
    ensures forall bo :: bo in Trim(list, time) <==> bo in list && time != 0 && time - bo.freeTime <= 1
    ensures OldestFirst(Trim(list, time)) && forall bo :: bo in Trim(list, time) ==> bo in list && Stays(bo, time)
  {
    if list != [] {
      if Stays(list[0], time) {
        AllStay(list, time);
      } else {
        TrimIsExact(list[1..], time);
      }
    }
  }

  // ----- the cache -----

  // What the buckets hold at time now, the last clean-up having been at time `time`.
  ghost predicate Aged(buckets: seq<Bucket>, time: int, now: int) {
    Held(buckets, time, now) && (time == 0 ==> AllEmpty(buckets))
  }

  ghost predicate Held(buckets: seq<Bucket>, time: int, now: int) {
    0 <= time <= now && forall i :: 0 <= i < |buckets| ==> BucketAged(buckets[i], time, now)
  }

  ghost predicate AllEmpty(buckets: seq<Bucket>) {
    forall i :: 0 <= i < |buckets| ==> buckets[i].list == []
  }

  ghost predicate BucketAged(b: Bucket, time: int, now: int) {
    && OldestFirst(b.list)
    && forall k :: 0 <= k < |b.list| ==> b.list[k].size == b.size && time - 1 <= b.list[k].freeTime <= now
  }

  ghost predicate Sized(buckets: seq<Bucket>) {
    |buckets| == NUM_BUCKETS && forall i :: 0 <= i < |buckets| ==> buckets[i].size == BucketSize(i)
  }

  class BoCache {
    var buckets: seq<Bucket>
    var time: int
    ghost var now: int               // the last clock reading

    ghost predicate Valid()
      reads this
    {
      Sized(buckets) && Aged(buckets, time, now)
    }

    // etna_bo_cache_init
    constructor ()
      ensures Valid() && forall i :: 0 <= i < |buckets| ==> buckets[i].list == []
    {
      buckets, time, now := [], 0, 0;
      new;
      AddBucket(4096);
      AddBucket(4096 * 2);
      AddBucket(4096 * 3);
      var size := 4 * 4096;
      ghost var n := 0;
      while size <= CACHE_MAX_SIZE
        invariant 0 <= n <= 13 && size == 4 * (PAGE * Power2(n)) && |buckets| == 3 + 4 * n
        invariant time == 0 && now == 0
        invariant forall i :: 0 <= i < |buckets| ==> buckets[i] == Bucket(BucketSize(i), [])
        decreases 13 - n
      {
        PowersBelow(n);
        AddFour(n, size);
        size := size * 2;
        n := n + 1;
      }
      PowersBelow(n);
    }

    method AddFour(ghost n: nat, size: nat)
      requires size == 4 * (PAGE * Power2(n)) && |buckets| == 3 + 4 * n <= MAX_BUCKETS - 4
      requires forall i :: 0 <= i < |buckets| ==> buckets[i] == Bucket(BucketSize(i), [])
      modifies this`buckets
      ensures |buckets| == old(|buckets|) + 4
      ensures forall i :: 0 <= i < |buckets| ==> buckets[i] == Bucket(BucketSize(i), [])
    {
      FourSizes(n, size);
      AddBucket(size);
      AddBucket(size + size * 1 / 4);
      AddBucket(size + size * 2 / 4);
      AddBucket(size + size * 3 / 4);
    }

    method AddBucket(size: nat)
      requires |buckets| < MAX_BUCKETS           // the assertion in add_bucket
      modifies this`buckets
      ensures buckets == old(buckets) + [Bucket(size, [])]
    {
      buckets := buckets + [Bucket(size, [])];
    }

    // get_bucket: the smallest bucket that is large enough
    method GetBucket(size: nat) returns (i: Option<nat>)
      requires Sized(buckets)
      ensures i == None ==> size > BucketSize(NUM_BUCKETS - 1)
      ensures i.Some? ==> i.value < NUM_BUCKETS && size <= BucketSize(i.value)
      ensures i.Some? ==> forall j :: 0 <= j < i.value ==> BucketSize(j) < size
    {
      var k := 0;
      while k < |buckets|
        invariant k <= |buckets| && forall j :: 0 <= j < k ==> BucketSize(j) < size
      {
        if buckets[k].size >= size {
          return Some(k);
        }
        k := k + 1;
      }
      i := None;
    }

    // find_in_bucket: the oldest buffer with the same flags, if the card is done with it
    method FindInBucket(i: nat, flags: nat, idle: set<nat>) returns (bo: Option<Bo>)
      requires i < |buckets|
      modifies this`buckets
      ensures var list := old(buckets)[i].list; var k := FirstWith(list, flags);
        if k < |list| && list[k].id in idle
        then
          && bo == Some(list[k])
          && buckets == old(buckets)[i := old(buckets)[i].(list := list[..k] + list[k + 1..])]
        else bo == None && buckets == old(buckets)
    {
      var list := buckets[i].list;
      var k := 0;
      while k < |list| && list[k].flags != flags
        invariant k <= |list| && FirstWith(list, flags) == k + FirstWith(list[k..], flags)
      {
        k := k + 1;
      }
      if k < |list| && list[k].id in idle {
        bo := Some(list[k]);
        buckets := buckets[i := buckets[i].(list := list[..k] + list[k + 1..])];
      } else {
        bo := None;
      }
    }

    // etna_bo_cache_alloc: the size to allocate, and a recycled buffer of that size if there is one
    method Alloc(size: nat, flags: nat, idle: set<nat>) returns (size': nat, bo: Option<Bo>)
      requires Valid() && size < TWO_32
      modifies this`buckets
      ensures Valid() && Made(size')
      ensures size <= size' <==> size + PAGE - 1 < TWO_32
      ensures 0 < size && size + PAGE - 1 < TWO_32 ==> 4 * size' < 5 * PageRound(size)
      ensures LeastFor(PageRound(size), size')
      ensures bo.Some? <==> exists i :: Recyclable(old(buckets), i, size', flags, idle)
      ensures bo.Some? ==> bo.value.size == size' && bo.value.flags == flags && bo.value.id in idle
      ensures if bo.Some?
              then exists i :: TakenFrom(old(buckets), buckets, i, size', flags, bo.value)
              else buckets == old(buckets)
    {
      size' := PageRound(size);
      PageRoundIsExact(size);
      var i := GetBucket(size');
      bo := None;
      if i == None {
        TooLarge(buckets, size');
        NoneFits(size');
      } else {
        SmallestBucket(size, i.value);
        LeastBucket(size', i.value);
        SizesDiffer(buckets, i.value);
        size' := buckets[i.value].size;
        bo := FindInBucket(i.value, flags, idle);
        assert bo.Some? <==> Recyclable(old(buckets), i.value, size', flags, idle);
        if bo.Some? {
          assert TakenFrom(old(buckets), buckets, i.value, size', flags, bo.value);
          TakenIsAged(old(buckets), time, now, i.value, size', flags, bo.value, buckets);
        }
      }
    }

    // The inner loop of the clean-up
    method TrimBucket(i: nat, t: int)
      requires i < |buckets|
      modifies this`buckets
      ensures buckets == old(buckets)[i := Trimmed(old(buckets)[i], t)]
    {
      while buckets[i].list != []
        invariant |buckets| == |old(buckets)| && buckets == old(buckets)[i := buckets[i]]
        invariant buckets[i].size == old(buckets)[i].size
        invariant Trim(buckets[i].list, t) == Trim(old(buckets)[i].list, t)
        decreases |buckets[i].list|
      {
        var bo := buckets[i].list[0];
        if t != 0 && t - bo.freeTime <= 1 {
          break;
        }
        buckets := buckets[i := buckets[i].(list := buckets[i].list[1..])];
      }
    }

    // etna_bo_cache_cleanup; time 0 is for the end of the device.
    method Cleanup(t: int)
      requires Sized(buckets) && Held(buckets, time, now) && (t == 0 || now <= t)
      requires t == 0 && time == 0 ==> AllEmpty(buckets)
      modifies this
      ensures Valid() && time == t && |buckets| == |old(buckets)|
      ensures now == if t == 0 then old(now) else t
      ensures forall i :: 0 <= i < |buckets| ==> buckets[i].list == Staying(old(buckets)[i].list, t)
    {
      if t != 0 { now := t; }
      if time == t {
        NothingToTrim(buckets, t, old(now), now);
        return;
      }
      TrimAll(t);
      TrimmedIsAged(old(buckets), buckets, time, old(now), t, now);
      time := t;
    }

    method TrimAll(t: int)
      modifies this`buckets
      ensures |buckets| == |old(buckets)|
      ensures forall j :: 0 <= j < |buckets| ==> buckets[j] == Trimmed(old(buckets)[j], t)
    {
      ghost var before := buckets;
      var i := 0;
      while i < |buckets|
        invariant i <= |buckets| == |before|
        invariant forall j :: 0 <= j < |buckets| ==> buckets[j] == if j < i then Trimmed(before[j], t) else before[j]
      {
        TrimBucket(i, t);
        i := i + 1;
      }
    }

    // etna_bo_cache_free at clock reading t; `kept` says whether there was a bucket.
    method Free(bo: Bo, t: int) returns (kept: bool)
      requires Valid() && 0 < t && now <= t && Made(bo.size)
      modifies this
      ensures Valid() && (kept <==> bo.size <= BucketSize(NUM_BUCKETS - 1))
      ensures !kept ==> buckets == old(buckets)
      ensures kept ==> forall i :: 0 <= i < |buckets| ==> NothingOld(buckets[i].list, t)
      ensures kept ==> time == t && exists i :: FreedInto(old(buckets), buckets, i, bo.(freeTime := t), t)
    {
      var i := GetBucket(bo.size);
      if i == None {
        return false;
      }
      OwnBucket(bo.size, i.value);
      ghost var before := buckets;
      now := t;
      buckets := buckets[i.value := buckets[i.value].(list := buckets[i.value].list + [bo.(freeTime := t)])];
      ghost var added := buckets;
      AddedIsAged(before, time, old(now), t, i.value, bo.(freeTime := t));
      Cleanup(t);
      assert forall i :: 0 <= i < |buckets| ==> BucketAged(buckets[i], t, t);
      assert FreedInto(before, buckets, i.value, bo.(freeTime := t), t);
      kept := true;
    }
  }

  // Bucket i is the one for this size, and the oldest buffer in it with these flags is idle.
  ghost predicate Recyclable(buckets: seq<Bucket>, i: nat, size: nat, flags: nat, idle: set<nat>) {
    && i < |buckets| && buckets[i].size == size
    && var k := FirstWith(buckets[i].list, flags); k < |buckets[i].list| && buckets[i].list[k].id in idle
  }

  lemma TooLarge(buckets: seq<Bucket>, size: nat)
    requires Sized(buckets) && size > BucketSize(NUM_BUCKETS - 1)
    ensures forall j :: 0 <= j < |buckets| ==> buckets[j].size != size
  {
    forall j | 0 <= j < |buckets|
      ensures buckets[j].size < size
    {
      SizesDiffer(buckets, j);
    }
  }

  lemma SizesDiffer(buckets: seq<Bucket>, i: nat)
    requires Sized(buckets) && i < |buckets|
    ensures forall j :: 0 <= j < |buckets| && buckets[j].size == buckets[i].size ==> j == i
    ensures buckets[i].size <= BucketSize(NUM_BUCKETS - 1)
  {
    forall j | 0 <= j < |buckets| && j != i
      ensures buckets[j].size != buckets[i].size
    {
      if i < j { SizesAreOrdered(i, j); } else { SizesAreOrdered(j, i); }
    }
    if i < NUM_BUCKETS - 1 { SizesAreOrdered(i, NUM_BUCKETS - 1); }
  }

  // Buffer bo, the oldest in bucket i with these flags, has gone.
  ghost predicate TakenFrom(before: seq<Bucket>, after: seq<Bucket>, i: nat, size: nat, flags: nat, bo: Bo) {
    && i < |before| && before[i].size == size
    && var list := before[i].list; var k := FirstWith(list, flags);
      k < |list| && list[k] == bo && after == before[i := before[i].(list := list[..k] + list[k + 1..])]
  }

  // No buffer was freed more than a second before t.
  predicate NothingOld(list: seq<Bo>, t: int) {
    forall k :: 0 <= k < |list| ==> t - list[k].freeTime <= 1
  }

  // The first buffer with these flags, or the length of the list.
  function FirstWith(list: seq<Bo>, flags: nat): (k: nat)
    ensures k <= |list| && (k < |list| ==> list[k].flags == flags)
    ensures forall j :: 0 <= j < k ==> list[j].flags != flags
  {
    if list == [] || list[0].flags == flags then 0 else 1 + FirstWith(list[1..], flags)
  }

  // Sizes that buffers are allocated with
  ghost predicate Made(size: nat) {
    size > BucketSize(NUM_BUCKETS - 1) || exists i :: 0 <= i < NUM_BUCKETS && size == BucketSize(i)
  }

  // The least bucket size that is large enough, or what was asked for if there is none.
  ghost predicate LeastFor(asked: nat, size: nat) {
    if forall s: nat :: ThreeBits(s) ==> s < asked
    then size == asked
    else ThreeBits(size) && asked <= size && forall s: nat :: ThreeBits(s) && asked <= s ==> size <= s
  }

  lemma LeastBucket(asked: nat, i: nat)
    requires i < NUM_BUCKETS && asked <= BucketSize(i) && forall j :: 0 <= j < i ==> BucketSize(j) < asked
    ensures LeastFor(asked, BucketSize(i))
  {
    SizesHaveThreeBits(BucketSize(i));
    assert ThreeBits(BucketSize(i));
    forall s: nat | ThreeBits(s) && asked <= s
      ensures BucketSize(i) <= s
    {
      SizesHaveThreeBits(s);
      var j :| 0 <= j < NUM_BUCKETS && s == BucketSize(j);
      if i < j { SizesAreOrdered(i, j); }
    }
  }

  lemma NoneFits(asked: nat)
    requires asked > BucketSize(NUM_BUCKETS - 1)
    ensures LeastFor(asked, asked)
  {
    forall s: nat | ThreeBits(s)
      ensures s < asked
    {
      SizesHaveThreeBits(s);
      var j :| 0 <= j < NUM_BUCKETS && s == BucketSize(j);
      if j < NUM_BUCKETS - 1 { SizesAreOrdered(j, NUM_BUCKETS - 1); }
    }
  }

  function Trimmed(b: Bucket, t: int): Bucket {
    b.(list := Trim(b.list, t))
  }

  // Buffer bo joined bucket i, and then everything that was too old went.
  ghost predicate FreedInto(before: seq<Bucket>, after: seq<Bucket>, i: nat, bo: Bo, t: int) {
    && i < |before| == |after| && before[i].size == bo.size
    && forall j :: 0 <= j < |after| ==>
         after[j].list == Staying(if j == i then before[j].list + [bo] else before[j].list, t)
  }

  lemma SmallestBucket(size: nat, i: nat)
    requires size < TWO_32 && i < NUM_BUCKETS && PageRound(size) <= BucketSize(i)
    requires forall j :: 0 <= j < i ==> BucketSize(j) < PageRound(size)
    ensures size <= BucketSize(i) <==> size + PAGE - 1 < TWO_32
    ensures 0 < size && size + PAGE - 1 < TWO_32 ==> 4 * BucketSize(i) < 5 * PageRound(size)
  {
    PageRoundIsExact(size);
    if size + PAGE - 1 < TWO_32 {
      if size > 0 { BucketFits(PageRound(size), i); }
    } else {
      assert PageRound(size) == 0;
      SizesGrow(0);
    }
  }

  lemma TakenIsAged(before: seq<Bucket>, time: int, now: int, i: nat, size: nat, flags: nat, bo: Bo, after: seq<Bucket>)
    requires Sized(before) && Aged(before, time, now) && TakenFrom(before, after, i, size, flags, bo)
    ensures Sized(after) && Aged(after, time, now) && bo.size == size && bo.flags == flags
  {
  }

  // At the time of the last clean-up nothing is old enough to go.
  lemma NothingToTrim(buckets: seq<Bucket>, t: int, was: int, now: int)
    requires Held(buckets, t, was) && was <= now && (t == 0 ==> AllEmpty(buckets))
    ensures Aged(buckets, t, now)
    ensures forall i :: 0 <= i < |buckets| ==> buckets[i].list == Staying(buckets[i].list, t)
  {
    forall i | 0 <= i < |buckets|
      ensures buckets[i].list == Staying(buckets[i].list, t) && BucketAged(buckets[i], t, now)
    {
      assert BucketAged(buckets[i], t, was);
      AllStay(buckets[i].list, t);
    }
  }

  lemma TrimmedIsAged(before: seq<Bucket>, after: seq<Bucket>, time: int, was: int, t: int, now: int)
    requires Held(before, time, was) && was <= now && 0 <= t <= now && |after| == |before|
    requires forall j :: 0 <= j < |after| ==> after[j] == Trimmed(before[j], t)
    ensures Aged(after, t, now)
    ensures forall j :: 0 <= j < |after| ==> after[j].list == Staying(before[j].list, t)
  {
    forall j | 0 <= j < |after|
      ensures BucketAged(after[j], t, now) && after[j].list == Staying(before[j].list, t)
      ensures t == 0 ==> after[j].list == []
    {
      assert BucketAged(before[j], time, was);
      TrimIsExact(before[j].list, t);
      InList(before[j], after[j].list, time, was, t);
    }
  }

  lemma InList(b: Bucket, list: seq<Bo>, time: int, now: int, t: int)
    requires BucketAged(b, time, now) && forall bo :: bo in list ==> bo in b.list && Stays(bo, t)
    ensures forall k :: 0 <= k < |list| ==> list[k].size == b.size && list[k].freeTime <= now && Stays(list[k], t)
    ensures t == 0 ==> list == []
  {
    assert forall k :: 0 <= k < |list| ==> list[k] in list;
    assert list != [] ==> Stays(list[0], t);
  }

  // A size that buffers are allocated with leads back to its own bucket.
  lemma OwnBucket(size: nat, i: nat)
    requires Made(size) && i < NUM_BUCKETS && size <= BucketSize(i) && forall j :: 0 <= j < i ==> BucketSize(j) < size
    ensures size == BucketSize(i) <= BucketSize(NUM_BUCKETS - 1)
  {
    if i < NUM_BUCKETS - 1 { SizesAreOrdered(i, NUM_BUCKETS - 1); }
    var j :| 0 <= j < NUM_BUCKETS && size == BucketSize(j);
    if i < j { SizesAreOrdered(i, j); }
  }

  // The clock does not go back, so the newest buffer belongs at the end.
  lemma AddedIsAged(before: seq<Bucket>, time: int, was: int, t: int, i: nat, bo: Bo)
    requires Aged(before, time, was) && was <= t && 0 < t && i < |before|
    requires bo.freeTime == t && bo.size == before[i].size
    ensures Held(before[i := before[i].(list := before[i].list + [bo])], time, t)
  {
  }

  lemma SizeAt(n: nat, k: nat)
    requires k < 4
    ensures BucketSize(3 + 4 * n + k) == (4 + k) * (PAGE * Power2(n))
  {
    assert (4 * n + k) / 4 == n && (4 * n + k) % 4 == k;
  }

  lemma FourSizes(n: nat, size: nat)
    requires size == 4 * (PAGE * Power2(n))
    ensures BucketSize(3 + 4 * n) == size
    ensures BucketSize(4 + 4 * n) == size + size * 1 / 4
    ensures BucketSize(5 + 4 * n) == size + size * 2 / 4
    ensures BucketSize(6 + 4 * n) == size + size * 3 / 4
  {
    SizeAt(n, 0);
    SizeAt(n, 1);
    SizeAt(n, 2);
    SizeAt(n, 3);
    Quarters(PAGE * Power2(n), size);
  }

  lemma Quarters(p: nat, size: nat)
    requires size == 4 * p
    ensures size + size * 1 / 4 == 5 * p && size + size * 2 / 4 == 6 * p && size + size * 3 / 4 == 7 * p
  {
  }

  lemma PowersBelow(n: nat)
    requires n <= 13
    ensures 4 * PAGE * Power2(n) <= CACHE_MAX_SIZE <==> n < 13
  {
    assert Power2(2) == 4 && Power2(4) == 16 && Power2(6) == 64 && Power2(8) == 256 && Power2(10) == 1024;
    assert Power2(12) == 4096 && Power2(13) == 8192;
  }
}
