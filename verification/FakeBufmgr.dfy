/**
 The fake buffer manager of intel_bufmgr_fake.c, updating its lists and records in place.

 Every method keeps CardState.Ok, and says which of the steps of CardState it took.
 */
module FakeBufmgr {
  import opened Fences
  import opened Lists
  import opened Options
  import opened CardState

  datatype Outcome = Done | Failed | Aborted

  class BufMgr {
    var lru: seq<Addr>
    var onHardware: seq<Addr>
    var fenced: seq<Addr>
    var blocks: Blocks
    var bos: Bos
    var lastFence: nat
    var thrashing: nat
    var fail: bool
    var emitted: nat                  // how many fences the kernel has handed out
    ghost var ticket: map<Addr, nat>
    ghost var kicks: nat              // how often a batch was thrown off the card

    ghost function Now(): St
      reads this
    {
      St(lru, onHardware, fenced, blocks, bos, ticket, emitted)
    }

    constructor ()
      ensures Ok(Now()) && onHardware == [] && bos == map[] && !fail
    {
      lru, onHardware, fenced, blocks, bos, ticket, emitted := [], [], [], map[], map[], map[], 0;
      lastFence, thrashing, fail, kicks := 0, 0, false, 0;
    }

    // calloc: some address not in use
    static method Malloc(used: set<Addr>) returns (a: Addr)
      ensures a !in used
    {
      a := 0;
      ghost var left := used;
      while a in used
        invariant forall x :: x in used && x !in left ==> x < a
        invariant left <= used
        decreases left
      {
        left := left - {a};
        a := a + 1;
      }
    }

    // alloc_block; mmAllocMem may fail whenever it likes.
    method AllocBlock(o: Addr) returns (ok: bool, ghost b: Addr)
      requires Ok(Now()) && o in bos && bos[o].block == None && !bos[o].isStatic
      modifies this`lru, this`blocks, this`bos
      ensures Ok(Now())
      ensures ok ==> b !in old(blocks) && Now() == Alloc(old(Now()), o, b)
      ensures !ok ==> unchanged(this)
    {
      ok := *;
      b := 0;
      if ok {
        var a := Malloc(blocks.Keys);
        b := a;
        AllocIsOk(Now(), o, a);
        blocks := blocks[a := Block(false, false, 0, Some(o))];
        lru := lru + [a];
        bos := bos[o := bos[o].(block := Some(a))];
      }
    }

    method ListDel(b: Addr)
      modifies this`lru, this`onHardware, this`fenced
      ensures lru == Without(old(lru), b)
      ensures onHardware == Without(old(onHardware), b)
      ensures fenced == Without(old(fenced), b)
    {
      lru, onHardware, fenced := Without(lru, b), Without(onHardware, b), Without(fenced, b);
    }

    // free_block: copy card data back unless told not to, then free the block, or orphan it while
    // the card may still use it.
    method FreeBlock(b: Addr, skipDirtyCopy: bool)
      requires b in blocks && blocks[b].bo.Some? && blocks[b].bo.value in bos && CopyBackReady(bos)
      modifies this`lru, this`onHardware, this`fenced, this`blocks, this`bos
      ensures bos == CopiedBack(old(bos), old(blocks)[b].bo.value, skipDirtyCopy)
      ensures Now().(bos := old(bos)) ==
        if old(blocks)[b].onHardware || old(blocks)[b].fenced
        then old(Now()).(blocks := old(blocks)[b := old(blocks)[b].(bo := None)])
        else Drop(old(Now()), b)
    {
      var o := blocks[b].bo.value;
      var skip := skipDirtyCopy || bos[o].isStatic || bos[o].noBackingStore;
      if !skip && bos[o].cardDirty {
        assert bos[o].backingStore;       // the memcpy has a destination
        bos := bos[o := bos[o].(cardDirty := false, dirty := true)];
      }
      if blocks[b].onHardware || blocks[b].fenced {
        blocks := blocks[b := blocks[b].(bo := None)];
      } else {
        ListDel(b);
        blocks := blocks - {b};
      }
    }

    // The common end of evict_lru and evict_mru: set_dirty, forget the block, free it.
    method EvictBlock(b: Addr)
      requires Ok(Now()) && b in lru
      modifies this`lru, this`onHardware, this`fenced, this`blocks, this`bos
      ensures EvictsTo(old(Now()), b, Now()) && Ok(Now()) && |lru| < |old(lru)|
    {
      IdleHasBuffer(Now(), b);
      EvictIsOk(Now(), b);
      assert blocks[b].bo.Some?;      // eviction never meets an orphan
      var o := blocks[b].bo.value;
      assert !bos[o].isStatic;        // the assertion in set_dirty
      bos := bos[o := bos[o].(dirty := true)];
      bos := bos[o := bos[o].(block := None)];
      ghost var detached := bos;
      DetachedCopiesBack(old(bos), o, detached);
      FreeBlock(b, false);
    }

    // evict_lru: the oldest idle block that may be evicted, provided its fence is old enough.
    method EvictLru(maxFence: nat) returns (evicted: bool, ghost k: nat)
      requires Ok(Now())
      modifies this`lru, this`onHardware, this`fenced, this`blocks, this`bos
      ensures Ok(Now())
      ensures evicted ==> k < |old(lru)| && EvictsTo(old(Now()), old(lru)[k], Now()) && |lru| < |old(lru)|
      ensures evicted ==> !Kept(old(Now()), old(lru)[k]) && forall j :: 0 <= j < k ==> Kept(old(Now()), old(lru)[j])
      ensures evicted ==> OldEnough(old(Now()), old(lru)[k], maxFence)
      ensures !evicted ==> unchanged(this) && (forall j :: 0 <= j < k ==> j < |lru| && Kept(Now(), lru[j]))
      ensures !evicted ==> k == |lru| || (k < |lru| && !Kept(Now(), lru[k]) && !OldEnough(Now(), lru[k], maxFence))
    {
      var i := 0;
      k := 0;
      while i < |lru|
        invariant 0 <= i <= |lru| && unchanged(this)
        invariant forall j :: 0 <= j < i ==> Kept(Now(), lru[j])
      {
        var b := lru[i];
        assert b in lru;
        IdleHasBuffer(Now(), b);
        if blocks[b].bo.Some? && bos[blocks[b].bo.value].noFenceSubdata {
          i := i + 1;
          continue;
        }
        if blocks[b].fence != 0 && maxFence != 0 && !FenceLte(blocks[b].fence, maxFence) {
          return false, i;
        }
        EvictBlock(b);
        return true, i;
      }
      evicted, k := false, |lru|;
    }

    // evict_mru: the youngest idle block that may be evicted.
    method EvictMru() returns (evicted: bool, ghost k: nat)
      requires Ok(Now())
      modifies this`lru, this`onHardware, this`fenced, this`blocks, this`bos
      ensures Ok(Now())
      ensures evicted ==> k < |old(lru)| && EvictsTo(old(Now()), old(lru)[k], Now()) && |lru| < |old(lru)|
      ensures evicted ==> !Kept(old(Now()), old(lru)[k])
      ensures evicted ==> forall j :: k < j < |old(lru)| ==> Kept(old(Now()), old(lru)[j])
      ensures !evicted ==> unchanged(this) && forall j :: 0 <= j < |lru| ==> Kept(Now(), lru[j])
    {
      var i := |lru|;
      k := 0;
      while i > 0
        invariant 0 <= i <= |lru| && unchanged(this)
        invariant forall j :: i <= j < |lru| ==> Kept(Now(), lru[j])
      {
        var b := lru[i - 1];
        assert b in lru;
        IdleHasBuffer(Now(), b);
        if blocks[b].bo.Some? && bos[blocks[b].bo.value].noFenceSubdata {
          i := i - 1;
          continue;
        }
        EvictBlock(b);
        return true, i - 1;
      }
      evicted := false;
    }

    method FenceTest(fence: nat) returns (passed: bool)
      ensures passed == (fence == 0 || FenceLte(fence, lastFence))
    {
      passed := fence == 0 || FenceLte(fence, lastFence);
    }

    // What clear_fenced does with a block whose fence has passed: the delayed free of an orphan, or
    // the return of a block to the lru list.
    method ReleaseFirst()
      requires fenced != [] && fenced[0] in blocks && blocks[fenced[0]].fenced && !blocks[fenced[0]].onHardware
      modifies this`lru, this`onHardware, this`fenced, this`blocks
      ensures Now() == Release(old(Now()))
    {
      var b := fenced[0];
      blocks := blocks[b := blocks[b].(fenced := false)];
      if blocks[b].bo == None {
        ListDel(b);
        blocks := blocks - {b};
        assert blocks == old(blocks) - {b};
      } else {
        ListDel(b);
        lru := lru + [b];
        assert blocks == (old(blocks) - {b})[b := blocks[b]];
      }
    }

    // clear_fenced: releases the blocks at the front of the list whose fences pass the test against the
    // c-th.  These are exactly those not younger than the c-th if and only if the test judged the last
    // one released and the first one kept by their age.
    method ClearFenced(cookie: nat, ghost c: nat) returns (any: bool, ghost k: nat)
      requires Ok(Now()) && 0 < c && cookie == CookieOf(c)
      modifies this`lru, this`onHardware, this`fenced, this`blocks, this`lastFence
      ensures Cleared(old(Now()), Now(), k) && lastFence == cookie && (any <==> k > 0)
      ensures PassUpTo(old(fenced), ticket, c, k)
      ensures Split(old(fenced), ticket, c, k) <==> JudgedAt(old(fenced), ticket, c, k)
    {
      lastFence := cookie;
      ghost var s := Now();
      any, k := ClearPassed(c);
      AllOfFirst(s.fenced, s.ticket, c, k);
      SplitIff(s.fenced, s.ticket, c, k);
    }

    // Its loop.
    method ClearPassed(ghost c: nat) returns (any: bool, ghost k: nat)
      requires Ok(Now()) && 0 < c && lastFence == CookieOf(c)
      modifies this`lru, this`onHardware, this`fenced, this`blocks
      ensures Cleared(old(Now()), Now(), k) && (any <==> k > 0) && FirstPass(old(fenced), ticket, c, k)
      ensures k < |old(fenced)| ==> !Passes(Age(old(fenced)[k], ticket), c)
    {
      any, k := false, 0;
      ghost var s := Now();
      ClearNothing(s);
      while fenced != []
        invariant Cleared(s, Now(), k) && (any <==> k > 0) && FirstPass(s.fenced, s.ticket, c, k)
        decreases |fenced|
      {
        var passed := ClearFirst(s, k, c);
        if !passed {
          return;
        }
        k := k + 1;
        any := true;
      }
    }

    // Releases the first fenced block if its fence has passed.
    method ClearFirst(ghost s: St, ghost k: nat, ghost c: nat) returns (passed: bool)
      requires Cleared(s, Now(), k) && fenced != [] && 0 < c && lastFence == CookieOf(c)
      modifies this`lru, this`onHardware, this`fenced, this`blocks
      ensures k < |s.fenced| && (passed <==> Passes(Age(s.fenced[k], s.ticket), c))
      ensures if passed then Cleared(s, Now(), k + 1) && |fenced| < |old(fenced)| else unchanged(this)
    {
      ghost var t := Now();
      FirstFenced(t);
      assert s.fenced[k] == fenced[0];
      TestOfCookies(ticket[fenced[0]], c);
      passed := FenceTest(blocks[fenced[0]].fence);
      if passed {
        assert blocks[fenced[0]].fenced;        // the assertion in clear_fenced
        ReleaseFirst();
        ClearOneMore(s, t, k, Now());
      }
    }

    // ----- evict_and_alloc_block -----

    // alloc_block, once more
    method TryAlloc(ghost s: St, o: Addr) returns (ok: bool)
      requires Tried(s, Now(), o, false)
      modifies this`lru, this`blocks, this`bos
      ensures Tried(s, Now(), o, ok) && (!ok ==> unchanged(this)) && SameBlocks(old(bos), bos, o)
    {
      ghost var t, b := Now(), 0;
      ok, b := AllocBlock(o);
      if ok { AllocTries(s, t, o, b); }
    }

    // _fence_wait_internal for the oldest outstanding fence, with a wait callback installed.  However
    // old it is, it passes the test against itself.
    method WaitFirst(ghost s: St, o: Addr)
      requires Tried(s, Now(), o, false) && fenced != []
      modifies this`lru, this`onHardware, this`fenced, this`blocks, this`lastFence
      ensures Tried(s, Now(), o, false) && |fenced| < |old(fenced)| && old(lru) <= lru
    {
      ghost var t := Now();
      FirstFenced(t);
      ghost var c := ticket[fenced[0]];
      assert Passes(Age(t.fenced[0], ticket), c);
      ghost var k;
      var any;
      any, k := ClearFenced(blocks[fenced[0]].fence, c);
      ClearTries(s, t, Now(), k, o);
    }

    // alloc_block after evictions: they stay fair.
    method TryAllocFair(ghost s: St, o: Addr, ghost oldest: bool) returns (ok: bool)
      requires Wants(s, o) && Tried(s, Now(), o, false) && FewerBlocks(s.bos, bos, o) && Fair(s, bos, oldest)
      modifies this`lru, this`blocks, this`bos
      ensures Tried(s, Now(), o, ok) && (!ok ==> unchanged(this))
      ensures FewerBlocks(s.bos, bos, o) && Fair(s, bos, oldest)
    {
      ghost var before := bos;
      ok := TryAlloc(s, o);
      FairStays(s, before, bos, o, oldest);
    }

    // evict_lru(0), as one of a series.
    method EvictOldest(ghost s: St, o: Addr) returns (evicted: bool)
      requires Wants(s, o) && Tried(s, Now(), o, false) && Thinned(s, lru, bos, o) && Fair(s, bos, true)
      modifies this`lru, this`onHardware, this`fenced, this`blocks, this`bos
      ensures Tried(s, Now(), o, false) && Thinned(s, lru, bos, o) && Fair(s, bos, true)
      ensures if evicted then |lru| < |old(lru)| else AllGone(s, bos)
    {
      ghost var t, k := Now(), 0;
      evicted, k := EvictLru(0);
      if evicted {
        EvictedInOrder(s, t, o, k, Now(), true);
      } else {
        AllKept(t, k);
        NoneEvictable(s, t, o);
      }
    }

    // evict_mru, as one of a series.
    method EvictYoungest(ghost s: St, o: Addr) returns (evicted: bool)
      requires Wants(s, o) && Tried(s, Now(), o, false) && Thinned(s, lru, bos, o) && Fair(s, bos, false)
      modifies this`lru, this`onHardware, this`fenced, this`blocks, this`bos
      ensures Tried(s, Now(), o, false) && Thinned(s, lru, bos, o) && Fair(s, bos, false) && fenced == old(fenced)
      ensures if evicted then |lru| < |old(lru)| else forall j :: 0 <= j < |lru| ==> Kept(Now(), lru[j])
    {
      ghost var t, k := Now(), 0;
      evicted, k := EvictMru();
      if evicted { EvictedInOrder(s, t, o, k, Now(), false); }
    }

    // While the card is not thrashing, idle memory of any age may be evicted, the oldest first.
    method EvictOldToAlloc(o: Addr) returns (ok: bool)
      requires Wants(Now(), o)
      modifies this`lru, this`onHardware, this`fenced, this`blocks, this`bos
      ensures Tried(old(Now()), Now(), o, ok)
      ensures Fair(old(Now()), bos, true) && (!ok ==> AllGone(old(Now()), bos))
    {
      ghost var s := Now();
      NothingEvicted(s, o, true);
      while true
        invariant Tried(s, Now(), o, false) && Thinned(s, lru, bos, o) && Fair(s, bos, true)
        decreases |lru|
      {
        var evicted := EvictOldest(s, o);
        if !evicted {
          return false;
        }
        ok := TryAllocFair(s, o, true);
        if ok {
          return;
        }
      }
    }

    // Waits for every submitted batch in turn, until the memory it frees is enough.
    method WaitForAll(ghost s: St, o: Addr) returns (ok: bool)
      requires Tried(s, Now(), o, false)
      modifies this`lru, this`onHardware, this`fenced, this`blocks, this`bos, this`lastFence
      ensures Tried(s, Now(), o, ok) && (!ok ==> fenced == [])
      ensures SameBlocks(old(bos), bos, o) && (!ok ==> bos == old(bos) && old(lru) <= lru)
    {
      while fenced != []
        invariant Tried(s, Now(), o, false) && bos == old(bos) && old(lru) <= lru
        decreases |fenced|
      {
        WaitFirst(s, o);
        ok := TryAlloc(s, o);
        if ok {
          return;
        }
      }
      ok := false;
    }

    // With a batch on the hardware the card is thrashing.
    method DrainToAlloc(ghost s: St, o: Addr) returns (ok: bool)
      requires Tried(s, Now(), o, false) && fenced == []
      modifies this`lru, this`onHardware, this`fenced, this`blocks, this`bos, this`lastFence, this`thrashing
      ensures Settled(s, Now(), o, ok) && thrashing == if onHardware != [] then 20 else old(thrashing)
      ensures Fair(old(Now()), bos, false) && FewerBlocks(old(bos), bos, o)
    {
      ghost var t := Now();
      ok := false;
      if onHardware != [] {
        assert fenced == [];            // the source waits here again, but nothing is left to wait for
        thrashing := 20;
        ok := AllocAtOnce(o);
      }
      if !ok {
        ok := EvictNewToAlloc(o);
      }
      SettledAfter(s, t, Now(), o, ok);
    }

    // The youngest idle memory goes first.
    method EvictNewToAlloc(o: Addr) returns (ok: bool)
      requires Wants(Now(), o) && fenced == []
      modifies this`lru, this`onHardware, this`fenced, this`blocks, this`bos
      ensures Settled(old(Now()), Now(), o, ok)
      ensures Fair(old(Now()), bos, false) && FewerBlocks(old(bos), bos, o)
    {
      ghost var s := Now();
      NothingEvicted(s, o, false);
      while true
        invariant Tried(s, Now(), o, false) && fenced == []
        invariant Thinned(s, lru, bos, o) && Fair(s, bos, false)
        decreases |lru|
      {
        var evicted := EvictYoungest(s, o);
        if !evicted {
          return false;
        }
        ok := TryAllocFair(s, o, false);
        if ok {
          return;
        }
      }
    }

    // evict_and_alloc_block gives up only when nothing is left to wait for or to evict.  While the card is
    // not thrashing idle buffers lose their memory in the order of age, the oldest first; while it is, the
    // youngest first.
    method EvictAndAllocBlock(o: Addr) returns (ok: bool)
      requires Wants(Now(), o)
      modifies this`lru, this`onHardware, this`fenced, this`blocks, this`bos, this`lastFence, this`thrashing
      ensures Settled(old(Now()), Now(), o, ok) && Fair(old(Now()), bos, old(thrashing) == 0)
      ensures thrashing == old(thrashing) || thrashing == 20
      ensures !ok && (old(thrashing) > 0 || onHardware != []) ==> thrashing == 20
    {
      ok := AllocAtOnce(o);
      if !ok {
        ok := MakeRoom(o);
      }
    }

    method AllocAtOnce(o: Addr) returns (ok: bool)
      requires Wants(Now(), o)
      modifies this`lru, this`blocks, this`bos
      ensures if ok then Settled(old(Now()), Now(), o, true) else unchanged(this)
      ensures Fair(old(Now()), bos, true) && Fair(old(Now()), bos, false) && SameBlocks(old(bos), bos, o)
    {
      ghost var s := Now();
      ok := TryAlloc(s, o);
      SameIsFair(s, bos, o);
    }

    method MakeRoom(o: Addr) returns (ok: bool)
      requires Wants(Now(), o)
      modifies this`lru, this`onHardware, this`fenced, this`blocks, this`bos, this`lastFence, this`thrashing
      ensures Settled(old(Now()), Now(), o, ok) && Fair(old(Now()), bos, old(thrashing) == 0)
      ensures thrashing == old(thrashing) || thrashing == 20
      ensures !ok && (old(thrashing) > 0 || onHardware != []) ==> thrashing == 20
    {
      ghost var s := Now();
      if thrashing == 0 {
        ok := EvictThenWait(o);
      } else {
        thrashing := 20;
        ok := WaitToAlloc(s, o);
      }
    }

    method EvictThenWait(o: Addr) returns (ok: bool)
      requires Wants(Now(), o)
      modifies this`lru, this`onHardware, this`fenced, this`blocks, this`bos, this`lastFence, this`thrashing
      ensures Settled(old(Now()), Now(), o, ok) && Fair(old(Now()), bos, true)
      ensures thrashing == old(thrashing) || thrashing == 20
      ensures !ok && onHardware != [] ==> thrashing == 20
    {
      ghost var s := Now();
      ok := EvictOldToAlloc(o);
      if ok {
        return;
      }
      ghost var before := bos;
      ok := WaitToAlloc(s, o);
      GoneStays(s, before, bos, o);
    }

    // Nobody who still has memory loses it while waiting, and then the youngest first.
    method WaitToAlloc(ghost s: St, o: Addr) returns (ok: bool)
      requires Tried(s, Now(), o, false)
      modifies this`lru, this`onHardware, this`fenced, this`blocks, this`bos, this`lastFence, this`thrashing
      ensures Settled(s, Now(), o, ok)
      ensures Fair(old(Now()), bos, false) && FewerBlocks(old(bos), bos, o)
      ensures thrashing == old(thrashing) || thrashing == 20
      ensures !ok && onHardware != [] ==> thrashing == 20
    {
      ghost var t := Now();
      ok := WaitForAll(s, o);
      if ok {
        SameIsFair(t, bos, o);
        return;
      }
      ghost var u := Now();
      ok := DrainToAlloc(s, o);
      WaitedThenFair(t, u, o, bos);
    }


    // drm_intel_bufmgr_fake_wait_idle, which is to leave no block fenced.  It does exactly if every
    // outstanding fence is, on the cycle, less than a window older than the new one; a block at the
    // front of the list whose fence is not keeps all the others on it.
    method WaitIdle() returns (ghost k: nat)
      requires Ok(Now())
      modifies this`lru, this`onHardware, this`fenced, this`blocks, this`lastFence, this`emitted
      ensures emitted == old(emitted) + 1
      ensures Cleared(old(Now()).(emitted := emitted), Now(), k) && PassUpTo(old(fenced), ticket, emitted, k)
      ensures fenced == [] <==> old(NextPasses(Now()))
    {
      ghost var s := Now();
      k := EmitAndWait();
      AllPassedIff(s, k);
    }

    method EmitAndWait() returns (ghost k: nat)
      requires Ok(Now())
      modifies this`lru, this`onHardware, this`fenced, this`blocks, this`lastFence, this`emitted
      ensures emitted == old(emitted) + 1
      ensures Cleared(old(Now()).(emitted := emitted), Now(), k) && PassUpTo(old(fenced), ticket, emitted, k)
    {
      ghost var s := Now();
      EmittedIsOk(s);
      emitted := emitted + 1;
      assert s.(emitted := emitted) == Now();
      var any;
      any, k := ClearFenced(CookieOf(emitted), emitted);
    }

    // What fence_blocks does with a block.
    method FenceFirstBlock(cookie: nat)
      requires onHardware != [] && onHardware[0] in blocks && emitted > 0 && cookie == CookieOf(emitted)
      modifies this`lru, this`onHardware, this`fenced, this`blocks, this`ticket
      ensures Now() == FenceFirst(old(Now()))
    {
      var b := onHardware[0];
      blocks := blocks[b := blocks[b].(fence := cookie, onHardware := false, fenced := true)];
      ListDel(b);
      fenced := fenced + [b];
      ticket := ticket[b := emitted];
      assert blocks == (old(blocks) - {b})[b := blocks[b]];
    }

    // drm_intel_fake_fence_validated: emit a fence for the whole batch and fence_blocks.
    method FenceValidated()
      requires Ok(Now())
      modifies this`lru, this`onHardware, this`fenced, this`blocks, this`emitted, this`ticket
      ensures emitted == old(emitted) + 1 && onHardware == []
      ensures FencedUpTo(old(Now()).(emitted := emitted), Now(), |old(onHardware)|)
    {
      emitted := emitted + 1;
      var cookie := CookieOf(emitted);
      ghost var s, k := Now(), 0;
      while onHardware != []
        invariant FencedUpTo(s, Now(), k) && cookie == CookieOf(emitted) && emitted == s.emitted
        decreases |onHardware|
      {
        ghost var t := Now();
        FirstBusy(t);
        FenceFirstBlock(cookie);
        FenceOneMore(s, t, k);
        k := k + 1;
      }
    }

    // ----- the public operations -----

    // drm_intel_fake_bo_alloc and drm_intel_bo_fake_alloc_static
    method BoAlloc(isStatic: bool) returns (o: Addr)
      requires Ok(Now())
      modifies this`bos
      ensures o !in old(bos) && bos == old(bos)[o := NewBo(isStatic)] && Ok(Now())
    {
      o := Malloc(bos.Keys);
      bos := bos[o := NewBo(isStatic)];
    }

    // drm_intel_bo_fake_disable_backing_store: what is in the backing store is given up.
    method DisableBackingStore(o: Addr)
      requires Ok(Now()) && o in bos
      modifies this`bos
      ensures bos == old(bos)[o := old(bos)[o].(backingStore := false, noBackingStore := true, dirty := true)]
      ensures Ok(Now())
    {
      Retouch(blocks, bos, o, bos[o].(backingStore := false, noBackingStore := true, dirty := true));
      bos := bos[o := bos[o].(backingStore := false, noBackingStore := true, dirty := true)];
    }

    // drm_intel_fake_bo_validate: give the buffer card memory, upload it if dirty, and put its block
    // into the batch.  Memory is written to only while the card is idle.
    method Validate(o: Addr) returns (r: Outcome)
      requires Good(Now()) && o in bos && !bos[o].validated
      modifies this`lru, this`onHardware, this`fenced, this`blocks, this`bos, this`lastFence, this`thrashing,
        this`emitted, this`fail
      ensures Good(Now()) && Validated(old(Now()), Now(), o, r)
      ensures r.Done? && old(bos)[o].dirty && !old(bos)[o].isStatic && old(NextPasses(Now())) ==> fenced == []
      ensures r.Failed? ==> fail
      ensures !r.Failed? ==> fail == old(fail)
    {
      if bos[o].isStatic {
        return Done;
      }
      ghost var s := Now();
      var ok := GetMemory(o);
      if !ok {
        fail := true;
        return Failed;
      }
      if bos[o].dirty && bos[o].noBackingStore {
        return Aborted;                      // the assertion in bo_validate
      }
      UploadAndJoin(s, o);
      r := Done;
    }

    method UploadAndJoin(ghost s: St, o: Addr)
      requires Prepared(s, Now(), o) && bos[o].block.Some?
      requires !(s.bos[o].dirty && s.bos[o].noBackingStore)
      modifies this`lru, this`onHardware, this`fenced, this`blocks, this`bos, this`lastFence, this`emitted
      ensures Good(Now()) && Validated(s, Now(), o, Done)
      ensures old(bos)[o].dirty && old(NextPasses(Now())) ==> fenced == []
    {
      Upload(s, o);
      JoinBatch(s, o);
    }

    // A buffer without memory gets some.
    method GetMemory(o: Addr) returns (ok: bool)
      requires Good(Now()) && o in bos && !bos[o].validated && !bos[o].isStatic
      modifies this`lru, this`onHardware, this`fenced, this`blocks, this`bos, this`lastFence, this`thrashing
      ensures Prepared(old(Now()), Now(), o) && bos[o].dirty == old(bos)[o].dirty
      ensures ok <==> bos[o].block.Some?
      ensures old(NextPasses(Now())) ==> NextPasses(Now())
      ensures !ok ==> old(bos)[o].block == None && Exhausted(Now())
    {
      ok := true;
      if bos[o].block == None {
        ghost var s := Now();
        ok := EvictAndAllocBlock(o);
        MadeRoom(s, Now(), o, ok);
      }
    }

    // A dirty buffer is copied to the card, once the card is idle.
    method Upload(ghost s: St, o: Addr)
      requires Prepared(s, Now(), o)
      modifies this`lru, this`onHardware, this`fenced, this`blocks, this`bos, this`lastFence, this`emitted
      ensures Prepared(s, Now(), o) && !bos[o].dirty && bos[o].block == old(bos)[o].block
      ensures old(bos)[o].dirty && old(NextPasses(Now())) ==> fenced == []
    {
      if bos[o].dirty {
        ghost var t := Now();
        ghost var k := WaitIdle();
        IdleWaited(s, t, Now(), o, k);
        ghost var u := Now();
        bos := bos[o := bos[o].(dirty := false)];
        Uploaded(s, u, o);
      }
    }

    method JoinBatch(ghost s: St, o: Addr)
      requires Prepared(s, Now(), o) && bos[o].block.Some? && !bos[o].dirty
      requires !(s.bos[o].dirty && s.bos[o].noBackingStore)
      modifies this`lru, this`onHardware, this`fenced, this`blocks, this`bos
      ensures Good(Now()) && Validated(s, Now(), o, Done)
      ensures old(fenced) == [] ==> fenced == []
    {
      ghost var t := Now();
      BatchIsGood(t, o);
      BatchEntered(s, t, o);
      EnterBatch(o);
    }

    // The block joins the batch, whatever list it was on.
    method EnterBatch(o: Addr)
      requires o in bos && bos[o].block.Some? && bos[o].block.value in blocks
      modifies this`lru, this`onHardware, this`fenced, this`blocks, this`bos
      ensures Now() == ToHardware(old(Now()), o)
      ensures old(fenced) == [] ==> fenced == []
    {
      var b := bos[o].block.value;
      blocks := blocks[b := blocks[b].(fenced := false, onHardware := true)];
      ListDel(b);
      onHardware := onHardware + [b];
      bos := bos[o := bos[o].(validated := true)];
      assert blocks == (old(blocks) - {b})[b := blocks[b]];
    }

    // drm_intel_fake_kick_all_locked: the batch being built is given up, and its buffers leave the card.
    method KickAll()
      requires Good(Now())
      modifies this`lru, this`onHardware, this`fenced, this`blocks, this`bos, this`kicks
      ensures Good(Now()) && KickedUpTo(old(Now()), Now(), |old(onHardware)|)
      ensures onHardware == [] && NoneValidated(bos) && kicks == old(kicks) + 1
    {
      ghost var s, k := Now(), 0;
      NothingKicked(s);
      while onHardware != []
        invariant KickedUpTo(s, Now(), k) && kicks == old(kicks)
        decreases |onHardware|
      {
        ghost var t := Now();
        NextToKick(s, t, k);
        KickBlock();
        KickOneMore(s, t, k);
        k := k + 1;
      }
      EveryoneKicked(s, Now());
      kicks := kicks + 1;
    }

    method KickBlock()
      requires Ok(Now()) && onHardware != [] && onHardware[0] in blocks && blocks[onHardware[0]].bo.Some?
      modifies this`lru, this`onHardware, this`fenced, this`blocks, this`bos
      ensures old(blocks)[old(onHardware)[0]].bo.value in old(bos)
      ensures Now() == KickFirst(old(Now()))
    {
      FirstBusy(Now());
      var b := onHardware[0];
      var o := blocks[b].bo.value;
      blocks := blocks[b := blocks[b].(onHardware := false)];
      FreeBlock(b, false);
      bos := bos[o := bos[o].(block := None, validated := false)];
      bos := bos[o := bos[o].(dirty := bos[o].dirty || !bos[o].noBackingStore)];
      KickedCopiesBack(old(bos), o, bos);
      assert blocks == old(blocks) - {b};
    }

    // The last drm_intel_fake_bo_unreference of a buffer.
    method Unreference(o: Addr)
      requires Ok(Now()) && o in bos
      modifies this`lru, this`onHardware, this`fenced, this`blocks, this`bos
      ensures Ok(Now()) && Now() == CardState.Unreference(old(Now()), o)
    {
      UnreferenceIsOk(Now(), o);
      if bos[o].block.Some? {
        FreeBlock(bos[o].block.value, true);
      }
      bos := bos - {o};
    }

    // A buffer with a write domain: the card will write to it, so its contents will have to be copied
    // back some day.
    method MarkWritten(o: Addr)
      requires Good(Now()) && o in bos && !bos[o].validated
      modifies this`bos
      ensures Good(Now()) && bos == old(bos)[o := Written(old(bos)[o])]
    {
      var bo := bos[o];
      if !bo.noBackingStore && !bo.isStatic && !bo.backingStore {
        bo := bo.(backingStore := true);                      // alloc_backing_store
      }
      bo := bo.(cardDirty := true);
      assert bo == Written(bos[o]);
      WrittenIsGood(Now(), o);
      bos := bos[o := bo];
    }

    // drm_intel_fake_reloc_and_validate_buffer over the buffers of a batch, in the order in which the
    // relocation trees reach them; `written` are those with a write domain.
    method ValidateAll(batch: seq<Addr>, written: set<Addr>) returns (r: Outcome)
      requires Good(Now()) && NoneValidated(bos) && !fail && forall o :: o in batch ==> o in bos
      modifies this`lru, this`onHardware, this`fenced, this`blocks, this`bos, this`lastFence, this`thrashing,
        this`emitted, this`fail
      ensures Good(Now()) && (r.Failed? <==> fail)
      ensures if r.Done? then Assembled(Now(), batch, written, |batch|) else Stuck(Now(), batch)
      ensures r.Aborted? ==> NothingToUpload(bos, batch)
      ensures forall o :: o in batch ==> o in bos
    {
      var i := 0;
      while i < |batch|
        invariant Good(Now()) && i <= |batch| && Assembled(Now(), batch, written, i) && !fail
      {
        r := ValidateNext(batch, written, i);
        if r != Done {
          return;
        }
        i := i + 1;
      }
      r := Done;
    }

    // One buffer of the batch, unless it was reached before.
    method ValidateNext(batch: seq<Addr>, written: set<Addr>, i: nat) returns (r: Outcome)
      requires Good(Now()) && Assembled(Now(), batch, written, i) && i < |batch| && !fail
      modifies this`lru, this`onHardware, this`fenced, this`blocks, this`bos, this`lastFence, this`thrashing,
        this`emitted, this`fail
      ensures Good(Now()) && (r.Failed? <==> fail) && forall o :: o in batch ==> o in bos
      ensures if r.Done? then Assembled(Now(), batch, written, i + 1) else Stuck(Now(), batch)
      ensures r.Aborted? ==> NothingToUpload(bos, batch)
    {
      var o := batch[i];
      if bos[o].validated {
        AlreadyAssembled(Now(), batch, written, i);
        return Done;
      }
      if o in written {
        MarkedAssembled(Now(), batch, written, i);
        MarkWritten(o);
      }
      r := PlaceNext(batch, written, i);
    }

    method PlaceNext(batch: seq<Addr>, ghost written: set<Addr>, i: nat) returns (r: Outcome)
      requires Good(Now()) && Assembled(Now(), batch, written, i) && i < |batch| && !fail
      requires !bos[batch[i]].validated && (batch[i] in written ==> bos[batch[i]].cardDirty)
      modifies this`lru, this`onHardware, this`fenced, this`blocks, this`bos, this`lastFence, this`thrashing,
        this`emitted, this`fail
      ensures Good(Now()) && (r.Failed? <==> fail) && forall o :: o in batch ==> o in bos
      ensures if r.Done? then Assembled(Now(), batch, written, i + 1) else Stuck(Now(), batch)
      ensures r.Aborted? ==> NothingToUpload(bos, batch)
    {
      ghost var t := Now();
      r := Validate(batch[i]);
      KeysKept(t, Now(), batch[i], r, batch);
      if r.Done? {
        AssembledOneMore(t, Now(), batch, written, i);
      } else {
        assert StuckAt(Now(), batch[i]);
        assert r.Aborted? ==> bos[batch[i]].dirty;
      }
    }

    // drm_intel_bo_fake_post_submit over the same buffers
    method PostSubmit(batch: seq<Addr>)
      requires Ok(Now()) && forall o :: o in batch ==> o in bos
      modifies this`bos
      ensures Ok(Now()) && Unmarked(old(bos), bos, batch, |batch|)
    {
      var i := 0;
      while i < |batch|
        invariant i <= |batch| && Ok(Now()) && Unmarked(old(bos), bos, batch, i)
      {
        ghost var before := bos;
        Unmark(batch[i]);
        UnmarkedOneMore(old(bos), before, batch, i);
        i := i + 1;
      }
    }

    method Unmark(o: Addr)
      requires Ok(Now()) && o in bos
      modifies this`bos
      ensures Ok(Now()) && bos == old(bos)[o := old(bos)[o].(validated := false)]
    {
      UnmarkIsOk(Now(), o);
      bos := bos[o := bos[o].(validated := false)];
    }

    // drm_intel_fake_bo_exec: validate, and if the card is full throw out what is there and try
    // again; submit; fence.  `accepted` is the answer to the submission.  It gives up for want of memory
    // only after the batch was thrown out once.
    method Exec(batch: seq<Addr>, written: set<Addr>, accepted: bool) returns (r: Outcome)
      requires Ok(Now()) && onHardware == [] && NoneValidated(bos) && !fail
      requires forall o :: o in batch ==> o in bos
      modifies this
      ensures Ok(Now())
      ensures r.Done? ==> Submitted(Now(), batch, written) && !fail
      ensures r.Aborted? ==> Stuck(Now(), batch) && (kicks == old(kicks) + 1 || NothingToUpload(bos, batch))
      ensures kicks == old(kicks) || kicks == old(kicks) + 1
      ensures r.Failed? ==> !accepted && Building(Now()) && Assembled(Now(), batch, written, |batch|)
    {
      BatchStarts(Now());
      r := Assemble(batch, written);
      if r != Done {
        return Aborted;                        // the assertion in bo_exec
      }
      if !accepted {
        return Failed;
      }
      Finish(batch, written);
    }

    // The batch is placed; if the card is full it is thrown out and placed again, once.
    method Assemble(batch: seq<Addr>, written: set<Addr>) returns (r: Outcome)
      requires Good(Now()) && NoneValidated(bos) && !fail && forall o :: o in batch ==> o in bos
      modifies this`lru, this`onHardware, this`fenced, this`blocks, this`bos, this`lastFence, this`thrashing,
        this`emitted, this`fail, this`kicks
      ensures Good(Now()) && (r.Done? ==> !fail)
      ensures if r.Done? then Assembled(Now(), batch, written, |batch|) else Stuck(Now(), batch)
      ensures r.Aborted? ==> NothingToUpload(bos, batch)
      ensures kicks == old(kicks) || kicks == old(kicks) + 1
      ensures r.Failed? ==> kicks == old(kicks) + 1
    {
      r := ValidateAll(batch, written);
      if fail {
        KickAll();
        fail := false;
        r := ValidateAll(batch, written);
      }
    }

    method Finish(batch: seq<Addr>, written: set<Addr>)
      requires Good(Now()) && Assembled(Now(), batch, written, |batch|)
      modifies this`lru, this`onHardware, this`fenced, this`blocks, this`bos, this`emitted, this`ticket
      ensures Ok(Now()) && Submitted(Now(), batch, written)
    {
      ghost var s := Now();
      FenceValidated();
      ghost var t := Now();
      BatchFenced(s, t, batch, written);
      PostSubmit(batch);
      BatchUnmarked(t, Now(), batch, written);
    }

    // drm_intel_bufmgr_fake_evict_all: afterwards nothing is on the card, and every buffer that had
    // data only there has it in its backing store.  Its two assertions fail exactly if a batch was left
    // unsubmitted or an outstanding fence is too old to look passed.
    method EvictAll() returns (aborted: bool)
      requires Ok(Now())
      modifies this`lru, this`onHardware, this`fenced, this`blocks, this`bos, this`lastFence, this`emitted, this`fail
      ensures Ok(Now()) && !fail
      ensures aborted <==> old(onHardware != [] || !NextPasses(Now()))
      ensures aborted ==> bos == old(bos)
      ensures !aborted ==> lru == [] && onHardware == [] && fenced == [] && blocks == map[]
      ensures forall o :: o in bos <==> o in old(bos)
      ensures !aborted ==> forall o :: o in bos ==> bos[o] == Home(old(bos)[o])
    {
      fail := false;
      ghost var k := WaitIdle();
      if fenced != [] || onHardware != [] {
        return true;
      }
      SendHome();
      aborted := false;
    }

    // The loop over the idle blocks.
    method SendHome()
      requires Ok(Now()) && fenced == [] && onHardware == []
      modifies this`lru, this`onHardware, this`fenced, this`blocks, this`bos
      ensures Ok(Now()) && lru == [] && onHardware == [] && fenced == [] && blocks == map[]
      ensures forall o :: o in bos <==> o in old(bos)
      ensures forall o :: o in bos ==> bos[o] == Home(old(bos)[o])
    {
      ghost var s := Now();
      while lru != []
        invariant GoingHome(s, Now())
        decreases |lru|
      {
        ghost var t := Now();
        FreeIdle();
        OneMoreHome(s, t);
      }
      AllHome(s, Now());
    }

    // Frees the oldest idle block, saving its contents.
    method FreeIdle()
      requires Ok(Now()) && lru != []
      modifies this`lru, this`onHardware, this`fenced, this`blocks, this`bos
      ensures var s := old(Now()); var b := s.lru[0];
        && b in s.blocks && s.blocks[b].bo.Some? && s.blocks[b].bo.value in s.bos
        && Now() == Drop(s, b).(bos := s.bos[s.blocks[b].bo.value := Home(s.bos[s.blocks[b].bo.value])])
    {
      var b := lru[0];
      assert b in lru;
      IdleHasBuffer(Now(), b);
      var o := blocks[b].bo.value;
      FreeBlock(b, false);
      bos := bos[o := bos[o].(block := None)];
      assert bos == old(bos)[o := Home(old(bos)[o])];
    }
  }

  // s' is s after the first k fenced blocks have been released: those with a buffer went to the end
  // of the lru list, the orphans are gone, and nothing else happened.
  ghost predicate Cleared(s: St, s': St, k: nat) {
    && Ok(s') && Later(s, s') && s'.bos == s.bos
    && k <= |s.fenced| && s'.fenced == s.fenced[k..]
    && s'.lru == s.lru + Owned(s.fenced[..k], s.blocks)
    && Untouched(s, s', s'.fenced)
  }

  ghost predicate Untouched(s: St, s': St, list: seq<Addr>) {
    forall b :: b in list ==> b in s.blocks && b in s'.blocks && s'.blocks[b] == s.blocks[b]
  }

  lemma ClearNothing(s: St)
    requires Ok(s)
    ensures Cleared(s, s, 0)
  {
    forall b | b in s.fenced
      ensures b in s.blocks
    {
      ListMembers(s, b);
    }
  }

  lemma ClearOneMore(s: St, t: St, k: nat, u: St)
    requires Cleared(s, t, k) && t.fenced != [] && t.fenced[0] in t.blocks && u == Release(t)
    ensures Cleared(s, u, k + 1)
  {
    LaterAfterRelease(s, t);
    Released(t, u);
    OwnedOneMore(s, t, k);
    OthersUntouched(t);
    StillUntouched(s, t, u, t.fenced[1..]);
    assert t.fenced[1..] == s.fenced[k + 1..];
    Associate(s.lru, Owned(s.fenced[..k], s.blocks), if t.blocks[s.fenced[k]].bo.Some? then [s.fenced[k]] else []);
  }

  lemma Associate(a: seq<Addr>, b: seq<Addr>, c: seq<Addr>)
    ensures (a + b) + c == a + (b + c)
  {
  }

  lemma Released(t: St, u: St)
    requires Ok(t) && t.fenced != [] && t.fenced[0] in t.blocks && u == Release(t)
    ensures Ok(u) && u.fenced == t.fenced[1..]
    ensures u.lru == t.lru + (if t.blocks[t.fenced[0]].bo.Some? then [t.fenced[0]] else [])
  {
    if t.blocks[t.fenced[0]].bo == None { ReleaseOrphanIsOk(t); } else { ReleaseOwnedIsOk(t); }
  }

  lemma StillUntouched(s: St, t: St, u: St, list: seq<Addr>)
    requires Untouched(s, t, t.fenced) && Untouched(t, u, list) && forall b :: b in list ==> b in t.fenced
    ensures Untouched(s, u, list)
  {
  }

  lemma LaterAfterRelease(s: St, t: St)
    requires Later(s, t) && Ok(t) && t.bos == s.bos && t.fenced != [] && t.fenced[0] in t.blocks
    ensures Later(s, Release(t)) && Release(t).bos == s.bos
  {
    ReleaseIsLater(t);
    LaterTransitive(s, t, Release(t));
  }

  lemma OwnedOneMore(s: St, t: St, k: nat)
    requires k < |s.fenced| && t.fenced == s.fenced[k..] && Untouched(s, t, t.fenced)
    ensures s.fenced[k] in t.blocks && s.fenced[k] in s.blocks
    ensures Owned(s.fenced[..k + 1], s.blocks) ==
            Owned(s.fenced[..k], s.blocks) + (if t.blocks[s.fenced[k]].bo.Some? then [s.fenced[k]] else [])
  {
    var b := s.fenced[k];
    assert b == t.fenced[0] && b in t.fenced;
    assert s.fenced[..k + 1] == s.fenced[..k] + [b];
    OwnedLast(s.fenced[..k], b, s.blocks);
  }

  // Nothing is left to wait for, and nothing to evict.
  ghost predicate Exhausted(s: St) {
    s.fenced == [] && forall j :: 0 <= j < |s.lru| ==> Kept(s, s.lru[j])
  }

  // o is a buffer without a block that may get one.
  ghost predicate Wants(s: St, o: Addr) {
    Ok(s) && o in s.bos && s.bos[o].block == None && !s.bos[o].isStatic
  }

  // s' is s after memory was made for buffer o, successfully or not: buffer o got a block, the
  // youngest on the lru list, or is as it was.
  ghost predicate Tried(s: St, s': St, o: Addr, ok: bool) {
    && o in s.bos && s.bos[o].block == None && !s.bos[o].isStatic
    && Ok(s') && Later(s, s')
    && s'.bos[o] == s.bos[o].(block := s'.bos[o].block)
    && (ok <==> s'.bos[o].block.Some?)
    && (ok ==> s'.lru != [] && s'.bos[o].block == Some(s'.lru[|s'.lru| - 1]))
  }

  // ... and if not, there was no way to.
  ghost predicate Settled(s: St, s': St, o: Addr, ok: bool) {
    Tried(s, s', o, ok) && (!ok ==> Exhausted(s'))
  }

  lemma AllocTries(s: St, t: St, o: Addr, b: Addr)
    requires Tried(s, t, o, false) && b !in t.blocks
    ensures Tried(s, Alloc(t, o, b), o, true)
  {
    AllocIsLater(t, o, b);
    AllocIsOk(t, o, b);
    LaterTransitive(s, t, Alloc(t, o, b));
  }

  lemma EvictTries(s: St, t: St, b: Addr, u: St, o: Addr)
    requires Tried(s, t, o, false) && b in t.lru && EvictsTo(t, b, u)
    ensures Tried(s, u, o, false) && u.fenced == t.fenced
  {
    EvictIsOk(t, b);
    EvictIsLater(t, b);
    IdleHasBuffer(t, b);
    LaterTransitive(s, t, u);
  }

  // ----- who loses memory first -----

  // The buffer that block b of s belonged to still has it.
  ghost predicate Still(s: St, bos: Bos, b: Addr) {
    && b in s.blocks && s.blocks[b].bo.Some? && s.blocks[b].bo.value in bos
    && bos[s.blocks[b].bo.value].block == Some(b)
  }

  // Of any two idle blocks of s that may be evicted, the older (or the younger) one went first.
  ghost predicate Fair(s: St, bos: Bos, oldest: bool) {
    forall j, k :: 0 <= j < k < |s.lru| && !Kept(s, s.lru[j]) && !Kept(s, s.lru[k]) ==>
      if oldest then Still(s, bos, s.lru[j]) ==> Still(s, bos, s.lru[k])
      else Still(s, bos, s.lru[k]) ==> Still(s, bos, s.lru[j])
  }

  // No block that may be evicted is left.
  ghost predicate AllGone(s: St, bos: Bos) {
    forall j :: 0 <= j < |s.lru| && !Kept(s, s.lru[j]) ==> !Still(s, bos, s.lru[j])
  }

  // Buffers other than o have the blocks they had ...
  ghost predicate SameBlocks(before: Bos, after: Bos, o: Addr) {
    forall p :: p in before && p != o ==> p in after && after[p].block == before[p].block
  }

  // ... or none.
  ghost predicate FewerBlocks(before: Bos, after: Bos, o: Addr) {
    forall p :: p in before && p != o ==> p in after && (after[p].block == before[p].block || after[p].block == None)
  }

  ghost predicate Earlier(list: seq<Addr>, a: Addr, b: Addr) {
    exists i, j :: 0 <= i < j < |list| && list[i] == a && list[j] == b
  }

  // Only evictions have happened: some blocks are gone, and the others are in their old order.
  ghost predicate Thinned(s: St, lru: seq<Addr>, bos: Bos, o: Addr) {
    && FewerBlocks(s.bos, bos, o)
    && (forall b :: b in lru ==> b in s.lru)
    && (forall i, j :: 0 <= i < j < |lru| ==> Earlier(s.lru, lru[i], lru[j]))
  }

  lemma LruIsDistinct(s: St)
    requires Listed(s)
    ensures forall i, j :: 0 <= i < j < |s.lru| ==> s.lru[i] != s.lru[j]
  {
    forall i, j | 0 <= i < j < |s.lru|
      ensures s.lru[i] != s.lru[j]
    {
      assert s.lru == s.lru[..i] + [s.lru[i]] + s.lru[i + 1..] && s.lru[j] == s.lru[i + 1..][j - i - 1];
      assert multiset(s.lru)[s.lru[j]] == multiset(IdleOf(s.blocks))[s.lru[j]] <= 1;
      assert s.lru[j] in multiset(s.lru[i + 1..]);
    }
  }

  // At the start every idle block is still there.
  lemma NothingEvicted(s: St, o: Addr, oldest: bool)
    requires Wants(s, o)
    ensures Tried(s, s, o, false) && Thinned(s, s.lru, s.bos, o) && Fair(s, s.bos, oldest)
  {
    SameIsFair(s, s.bos, o);
  }

  lemma SameIsFair(s: St, bos: Bos, o: Addr)
    requires Wants(s, o) && SameBlocks(s.bos, bos, o)
    ensures Fair(s, bos, true) && Fair(s, bos, false)
  {
    forall j | 0 <= j < |s.lru|
      ensures Still(s, bos, s.lru[j])
    {
      assert s.lru[j] in s.lru;
      IdleHasBuffer(s, s.lru[j]);
    }
  }

  // An idle block that its buffer still has is idle.
  lemma StillIsIdle(s: St, t: St, o: Addr, b: Addr)
    requires Ok(s) && Tried(s, t, o, false) && b in s.lru && Still(s, t.bos, b)
    ensures b in t.lru && (Kept(t, b) <==> Kept(s, b))
  {
    IdleHasBuffer(s, b);
    ListMembers(s, b);
    ListMembers(t, b);
  }

  lemma IdleIsStill(s: St, t: St, o: Addr, b: Addr)
    requires Ok(s) && Tried(s, t, o, false) && b in t.lru && FewerBlocks(s.bos, t.bos, o)
    ensures Still(s, t.bos, b)
  {
    IdleHasBuffer(t, b);
  }

  // Asked for any age, evict_lru stops only at the end of the list.
  lemma AllKept(t: St, k: nat)
    requires Ok(t) && forall j :: 0 <= j < k ==> j < |t.lru| && Kept(t, t.lru[j])
    requires k == |t.lru| || (k < |t.lru| && !OldEnough(t, t.lru[k], 0))
    ensures forall j :: 0 <= j < |t.lru| ==> Kept(t, t.lru[j])
  {
    if k < |t.lru| {
      assert t.lru[k] in t.lru;
      IdleHasBuffer(t, t.lru[k]);
    }
  }

  lemma NoneEvictable(s: St, t: St, o: Addr)
    requires Ok(s) && Tried(s, t, o, false) && forall j :: 0 <= j < |t.lru| ==> Kept(t, t.lru[j])
    ensures AllGone(s, t.bos)
  {
    forall j | 0 <= j < |s.lru| && !Kept(s, s.lru[j])
      ensures !Still(s, t.bos, s.lru[j])
    {
      if Still(s, t.bos, s.lru[j]) {
        assert s.lru[j] in s.lru;
        StillIsIdle(s, t, o, s.lru[j]);
      }
    }
  }

  // What one eviction takes from whom.
  lemma EvictionTakes(s: St, t: St, b: Addr, u: St, a: Addr)
    requires Ok(t) && b in t.lru && EvictsTo(t, b, u)
    ensures Still(s, u.bos, a) ==> Still(s, t.bos, a)
    ensures Still(s, t.bos, a) && a != b ==> Still(s, u.bos, a)
    ensures !Still(s, u.bos, b) || !Still(s, t.bos, b)
  {
    IdleHasBuffer(t, b);
  }

  // The block evicted was the first (or the last) in the list that may be; then it was so in the old list.
  lemma EvictedInOrder(s: St, t: St, o: Addr, q: nat, u: St, oldest: bool)
    requires Ok(s) && Tried(s, t, o, false) && Thinned(s, t.lru, t.bos, o) && Fair(s, t.bos, oldest)
    requires q < |t.lru| && EvictsTo(t, t.lru[q], u)
    requires forall i :: 0 <= i < |t.lru| && (if oldest then i < q else i > q) ==> Kept(t, t.lru[i])
    ensures Tried(s, u, o, false) && u.fenced == t.fenced
    ensures Thinned(s, u.lru, u.bos, o) && Fair(s, u.bos, oldest)
  {
    var x := t.lru[q];
    assert x in t.lru;
    EvictTries(s, t, x, u, o);
    ThinnedOneMore(s, t, o, x, u);
    forall j, k | 0 <= j < k < |s.lru| && !Kept(s, s.lru[j]) && !Kept(s, s.lru[k])
      ensures if oldest then Still(s, u.bos, s.lru[j]) ==> Still(s, u.bos, s.lru[k])
              else Still(s, u.bos, s.lru[k]) ==> Still(s, u.bos, s.lru[j])
    {
      var first, second := if oldest then s.lru[j] else s.lru[k], if oldest then s.lru[k] else s.lru[j];
      EvictionTakes(s, t, x, u, first);
      EvictionTakes(s, t, x, u, second);
      if Still(s, u.bos, first) && second == x {
        PassedOver(s, t, o, q, j, k, oldest);
      }
    }
  }

  // An older (younger) block that is still there was passed over because it is not to be evicted.
  lemma PassedOver(s: St, t: St, o: Addr, q: nat, j: nat, k: nat, oldest: bool)
    requires Ok(s) && Tried(s, t, o, false) && Thinned(s, t.lru, t.bos, o) && q < |t.lru|
    requires forall i :: 0 <= i < |t.lru| && (if oldest then i < q else i > q) ==> Kept(t, t.lru[i])
    requires j < k < |s.lru| && t.lru[q] == s.lru[if oldest then k else j]
    requires Still(s, t.bos, s.lru[if oldest then j else k])
    ensures Kept(s, s.lru[if oldest then j else k])
  {
    var a := s.lru[if oldest then j else k];
    assert a in s.lru;
    StillIsIdle(s, t, o, a);
    var i :| 0 <= i < |t.lru| && t.lru[i] == a;
    SameOrder(s, t.lru, if oldest then i else q, if oldest then q else i, j, k);
  }

  lemma SameOrder(s: St, lru: seq<Addr>, a: nat, b: nat, j: nat, k: nat)
    requires Listed(s) && forall i, j :: 0 <= i < j < |lru| ==> Earlier(s.lru, lru[i], lru[j])
    requires a < |lru| && b < |lru| && j < k < |s.lru| && lru[a] == s.lru[j] && lru[b] == s.lru[k]
    ensures a < b
  {
    LruIsDistinct(s);
  }

  lemma ThinnedOneMore(s: St, t: St, o: Addr, x: Addr, u: St)
    requires Ok(s) && Tried(s, t, o, false) && Thinned(s, t.lru, t.bos, o) && x in t.lru && EvictsTo(t, x, u)
    ensures Thinned(s, u.lru, u.bos, o)
  {
    var k := WithoutIsCut(t.lru, x);
    ThinnedCut(s, t.lru, k, u.lru);
  }

  lemma ThinnedCut(s: St, lru: seq<Addr>, k: nat, lru': seq<Addr>)
    requires k < |lru| && lru' == lru[..k] + lru[k + 1..]
    requires forall i, j :: 0 <= i < j < |lru| ==> Earlier(s.lru, lru[i], lru[j])
    ensures forall b :: b in lru' ==> b in lru
    ensures forall i, j :: 0 <= i < j < |lru'| ==> Earlier(s.lru, lru'[i], lru'[j])
  {
    forall i, j | 0 <= i < j < |lru'|
      ensures Earlier(s.lru, lru'[i], lru'[j])
    {
      assert Earlier(s.lru, lru[if i < k then i else i + 1], lru[if j < k then j else j + 1]);
    }
  }

  // The block that is then allocated goes to o, which had none.
  lemma FairStays(s: St, before: Bos, after: Bos, o: Addr, oldest: bool)
    requires Ok(s) && o in s.bos && s.bos[o].block == None
    requires Fair(s, before, oldest) && SameBlocks(before, after, o) && FewerBlocks(s.bos, before, o)
    requires forall p :: p in after ==> p in before
    ensures Fair(s, after, oldest)
  {
    forall j | 0 <= j < |s.lru|
      ensures Still(s, after, s.lru[j]) <==> Still(s, before, s.lru[j])
    {
      assert s.lru[j] in s.lru;
      IdleHasBuffer(s, s.lru[j]);
    }
  }

  // Waiting only adds to the idle blocks.
  lemma WaitedThenFair(s: St, t: St, o: Addr, bos: Bos)
    requires Ok(s) && Ok(t) && t.bos == s.bos && s.lru <= t.lru && Fair(t, bos, false)
    ensures Fair(s, bos, false)
  {
    forall j | 0 <= j < |s.lru|
      ensures t.lru[j] == s.lru[j] && (Kept(t, s.lru[j]) <==> Kept(s, s.lru[j]))
      ensures Still(t, bos, s.lru[j]) <==> Still(s, bos, s.lru[j])
    {
      assert s.lru[j] in s.lru && s.lru[j] in t.lru;
      IdleHasBuffer(s, s.lru[j]);
      IdleHasBuffer(t, s.lru[j]);
    }
  }

  lemma SettledAfter(s: St, t: St, u: St, o: Addr, ok: bool)
    requires Tried(s, t, o, false) && Settled(t, u, o, ok)
    ensures Settled(s, u, o, ok)
  {
    LaterTransitive(s, t, u);
  }

  lemma GoneStays(s: St, before: Bos, after: Bos, o: Addr)
    requires Ok(s) && o in s.bos && s.bos[o].block == None
    requires AllGone(s, before) && FewerBlocks(before, after, o) && forall p :: p in after <==> p in before
    ensures AllGone(s, after) && Fair(s, after, true)
  {
    forall j | 0 <= j < |s.lru| && !Kept(s, s.lru[j])
      ensures !Still(s, after, s.lru[j])
    {
      assert s.lru[j] in s.lru;
      IdleHasBuffer(s, s.lru[j]);
    }
  }

  lemma ClearTries(s: St, t: St, u: St, k: nat, o: Addr)
    requires Tried(s, t, o, false) && Cleared(t, u, k)
    ensures Tried(s, u, o, false)
  {
    LaterTransitive(s, t, u);
  }

  ghost predicate Good(s: St) {
    Ok(s) && Building(s)
  }

  // Between s and t buffer o, not yet in the batch, may have got a block and been uploaded; the batch
  // and its buffers are as before.
  ghost predicate Prepared(s: St, t: St, o: Addr) {
    && Good(t) && t.hw == s.hw
    && o in s.bos && o in t.bos && !s.bos[o].validated && !s.bos[o].isStatic
    && t.bos[o] == s.bos[o].(block := t.bos[o].block, dirty := t.bos[o].dirty)
    && SameBuffers(s, t, o)
  }

  // Buffers other than o keep their settings, and those of the batch everything.
  ghost predicate SameBuffers(s: St, t: St, o: Addr) {
    && (forall p :: p in s.bos <==> p in t.bos)
    && (forall p :: p in s.bos && p != o ==> SameSettings(s.bos[p], t.bos[p]))
    && (forall p :: p in s.bos && p != o && s.bos[p].validated ==> t.bos[p] == s.bos[p])
  }

  // There is no way to place buffer o: no memory for it, or nothing to upload to it.
  ghost predicate StuckAt(s: St, o: Addr) {
    && o in s.bos && !s.bos[o].isStatic
    && ((s.bos[o].block == None && Exhausted(s)) || (s.bos[o].dirty && s.bos[o].noBackingStore))
  }

  ghost predicate Stuck(s: St, batch: seq<Addr>) {
    exists k :: 0 <= k < |batch| && StuckAt(s, batch[k])
  }

  // Some buffer of the batch is dirty and has nothing that could be uploaded.
  ghost predicate NothingToUpload(bos: Bos, batch: seq<Addr>) {
    exists k :: 0 <= k < |batch| && batch[k] in bos && bos[batch[k]].dirty && bos[batch[k]].noBackingStore
  }

  // What bo_validate promises about buffer o: it ends the batch, clean; or there was no memory for
  // it; or the source's assertion caught a dirty buffer with nothing to upload.
  ghost predicate Validated(s: St, s': St, o: Addr, r: Outcome) {
    && o in s.bos && o in s'.bos
    && match r
       case Done =>
         if s.bos[o].isStatic then s' == s else
           && s'.bos[o].block.Some? && s'.hw == s.hw + [s'.bos[o].block.value]
           && s'.bos[o] == s.bos[o].(block := s'.bos[o].block, dirty := false, validated := true)
           && !(s.bos[o].dirty && s.bos[o].noBackingStore)
           && SameBuffers(s, s', o)
       case Failed => StuckAt(s', o) && s'.bos[o].block == None && s'.hw == s.hw && SameBuffers(s, s', o)
       case Aborted => StuckAt(s', o) && s'.bos[o].dirty && s'.bos[o].noBackingStore && SameBuffers(s, s', o)
  }

  lemma MadeRoom(s: St, t: St, o: Addr, ok: bool)
    requires Good(s) && Tried(s, t, o, ok) && !s.bos[o].validated
    ensures Prepared(s, t, o) && t.bos[o].dirty == s.bos[o].dirty
  {
    LaterIsBuilding(s, t);
  }

  lemma IdleWaited(s: St, t: St, u: St, o: Addr, k: nat)
    requires Prepared(s, t, o) && u.emitted == t.emitted + 1
    requires Cleared(t.(emitted := u.emitted), u, k)
    ensures Prepared(s, u, o) && u.bos == t.bos
  {
    LaterIsBuilding(t.(emitted := u.emitted), u);
  }

  lemma Uploaded(s: St, t: St, o: Addr)
    requires Prepared(s, t, o)
    ensures Prepared(s, t.(bos := t.bos[o := t.bos[o].(dirty := false)]), o)
  {
    Retouch(t.blocks, t.bos, o, t.bos[o].(dirty := false));
    UploadedBuilding(t, o);
  }

  lemma UploadedBuilding(t: St, o: Addr)
    requires Building(t) && o in t.bos && !t.bos[o].validated
    ensures Building(t.(bos := t.bos[o := t.bos[o].(dirty := false)]))
  {
  }

  lemma BatchEntered(s: St, t: St, o: Addr)
    requires Prepared(s, t, o) && t.bos[o].block.Some? && !t.bos[o].dirty
    requires !(s.bos[o].dirty && s.bos[o].noBackingStore)
    ensures t.bos[o].block.value in t.blocks
    ensures Validated(s, ToHardware(t, o), o, Done)
  {
    OutsideBatch(t, o);
    var u := ToHardware(t, o);
    JoinsAtEnd(t, o, u);
    assert u.bos == t.bos[o := t.bos[o].(validated := true)];
    StillSameBuffers(s, t, o, u);
  }

  lemma JoinsAtEnd(t: St, o: Addr, u: St)
    requires Listed(t) && o in t.bos && t.bos[o].block.Some? && t.bos[o].block.value in t.blocks
    requires u == ToHardware(t, o) && t.bos[o].block.value !in BusyOf(t.blocks)
    ensures u.hw == t.hw + [t.bos[o].block.value]
  {
    DropKeepsLists(t, t.bos[o].block.value);
  }

  lemma StillSameBuffers(s: St, t: St, o: Addr, u: St)
    requires SameBuffers(s, t, o) && o in t.bos && u.bos == t.bos[o := t.bos[o].(validated := true)]
    ensures SameBuffers(s, u, o)
  {
  }

  // A buffer that is not marked validated is not in the batch.
  lemma OutsideBatch(t: St, o: Addr)
    requires Ok(t) && Building(t) && o in t.bos && t.bos[o].block.Some? && !t.bos[o].validated
    ensures t.bos[o].block.value in t.blocks && t.bos[o].block.value !in BusyOf(t.blocks)
  {
  }

  lemma BatchIsGood(t: St, o: Addr)
    requires Good(t) && o in t.bos && t.bos[o].block.Some? && !t.bos[o].dirty
    ensures t.bos[o].block.value in t.blocks && Good(ToHardware(t, o))
  {
    ToHardwareIsOk(t, o);
    ToHardwareIsBuilding(t, o);
  }

  // s' is s after the first k blocks of the batch were freed and their buffers told.
  ghost predicate KickedUpTo(s: St, s': St, k: nat) {
    && Ok(s') && k <= |s.hw| && s'.hw == s.hw[k..] && s'.lru == s.lru && s'.fenced == s.fenced
    && s'.ticket == s.ticket && s'.emitted == s.emitted
    && Freed(s.blocks, s'.blocks, s.hw[..k]) && AllKicked(s.bos, s'.bos, s.hw[..k])
  }

  ghost predicate Freed(before: Blocks, after: Blocks, list: seq<Addr>) {
    && (forall b :: b in after ==> b in before && after[b] == before[b])
    && (forall b :: b in before && b !in list ==> b in after)
  }

  ghost predicate AllKicked(before: Bos, after: Bos, list: seq<Addr>) {
    && (forall o :: o in before <==> o in after)
    && (forall o :: o in before ==> after[o] == if HasOneOf(before[o], list) then Kicked(before[o]) else before[o])
  }

  predicate HasOneOf(bo: Bo, list: seq<Addr>) {
    bo.block.Some? && bo.block.value in list
  }

  predicate NoneValidated(bos: Bos) {
    forall o :: o in bos ==> !bos[o].validated
  }

  lemma KickedCopiesBack(bos: Bos, o: Addr, bos': Bos)
    requires o in bos
    requires var bo := CopiedBack(bos, o, false)[o].(block := None, validated := false);
      bos' == CopiedBack(bos, o, false)[o := bo][o := bo.(dirty := bo.dirty || !bo.noBackingStore)]
    ensures bos' == bos[o := Kicked(bos[o])]
  {
  }

  lemma NothingKicked(s: St)
    requires Ok(s)
    ensures KickedUpTo(s, s, 0)
  {
  }

  lemma NextToKick(s: St, t: St, k: nat)
    requires Ok(s) && Building(s) && KickedUpTo(s, t, k) && t.hw != []
    ensures t.hw[0] in t.blocks && t.hw[0] in s.blocks && t.blocks[t.hw[0]] == s.blocks[t.hw[0]]
    ensures t.blocks[t.hw[0]].bo.Some? && t.blocks[t.hw[0]].bo.value in t.bos
    ensures t.hw[0] == s.hw[k]
  {
    FirstBusy(t);
  }

  lemma KickOneMore(s: St, t: St, k: nat)
    requires Ok(s) && KickedUpTo(s, t, k) && t.hw != [] && t.hw[0] in t.blocks
    requires t.blocks[t.hw[0]].bo.Some? && t.blocks[t.hw[0]].bo.value in t.bos && t.hw[0] == s.hw[k]
    ensures KickedUpTo(s, KickFirst(t), k + 1)
  {
    KickFirstIsOk(t);
    var b := t.hw[0];
    assert s.hw[..k + 1] == s.hw[..k] + [b];
    KickOneBuffer(s.blocks, s.bos, t.bos, s.hw[..k], b, t.blocks[b].bo.value);
  }

  lemma KickOneBuffer(blocks: Blocks, before: Bos, after: Bos, list: seq<Addr>, b: Addr, o: Addr)
    requires Linked(blocks, before) && AllKicked(before, after, list)
    requires b in blocks && blocks[b].bo == Some(o) && o in after && after[o].block == Some(b)
    ensures AllKicked(before, after[o := Kicked(after[o])], list + [b])
  {
    assert before[o].block == Some(b);
    assert forall p :: p in before && p != o ==> before[p].block != Some(b);
  }

  lemma EveryoneKicked(s: St, t: St)
    requires Good(s) && KickedUpTo(s, t, |s.hw|)
    ensures Good(t) && NoneValidated(t.bos)
  {
    assert s.hw[..|s.hw|] == s.hw;
    forall o | o in t.bos
      ensures !t.bos[o].validated
    {
      if s.bos[o].validated {
        ListMembers(s, s.bos[o].block.value);
      }
    }
    BatchStarts(t);
  }

  function Written(bo: Bo): Bo {
    bo.(backingStore := bo.backingStore || (!bo.noBackingStore && !bo.isStatic), cardDirty := true)
  }

  lemma WrittenIsGood(s: St, o: Addr)
    requires Good(s) && o in s.bos && !s.bos[o].validated
    ensures Good(s.(bos := s.bos[o := Written(s.bos[o])]))
  {
  }

  // Buffer o is in the batch being built (or static and always on the card), up to date on the card,
  // and known to be written if it will be.
  ghost predicate Assembles(s: St, o: Addr, written: set<Addr>) {
    && o in s.bos
    && (!s.bos[o].isStatic ==> s.bos[o].validated && (o in written ==> s.bos[o].cardDirty))
  }

  // The first i buffers of the batch have been placed, and no others.
  ghost predicate Assembled(s: St, batch: seq<Addr>, written: set<Addr>, i: nat) {
    && i <= |batch| && (forall o :: o in batch ==> o in s.bos)
    && (forall o :: o in batch[..i] ==> Assembles(s, o, written))
    && (forall o :: o in s.bos && s.bos[o].validated ==> o in batch[..i])
  }

  lemma MarkedAssembled(s: St, batch: seq<Addr>, written: set<Addr>, i: nat)
    requires Assembled(s, batch, written, i) && i < |batch| && !s.bos[batch[i]].validated
    ensures Assembled(s.(bos := s.bos[batch[i] := Written(s.bos[batch[i]])]), batch, written, i)
  {
  }

  lemma KeysKept(s: St, t: St, o: Addr, r: Outcome, batch: seq<Addr>)
    requires Validated(s, t, o, r) && forall p :: p in batch ==> p in s.bos
    ensures forall p :: p in batch ==> p in t.bos
  {
  }

  lemma AssembledOneMore(s: St, t: St, batch: seq<Addr>, written: set<Addr>, i: nat)
    requires Assembled(s, batch, written, i) && i < |batch| && Validated(s, t, batch[i], Done)
    requires !s.bos[batch[i]].validated && (batch[i] in written ==> s.bos[batch[i]].cardDirty)
    ensures Assembled(t, batch, written, i + 1)
  {
    assert batch[..i + 1] == batch[..i] + [batch[i]];
  }

  lemma AlreadyAssembled(s: St, batch: seq<Addr>, written: set<Addr>, i: nat)
    requires Assembled(s, batch, written, i) && i < |batch| && s.bos[batch[i]].validated
    ensures Assembled(s, batch, written, i + 1)
  {
  }

  ghost predicate Unmarked(bos: Bos, bos': Bos, batch: seq<Addr>, i: nat) {
    && i <= |batch|
    && (forall o :: o in bos <==> o in bos')
    && forall o :: o in bos ==> bos'[o] == bos[o].(validated := bos[o].validated && o !in batch[..i])
  }

  lemma UnmarkIsOk(s: St, o: Addr)
    requires Ok(s) && o in s.bos
    ensures Ok(s.(bos := s.bos[o := s.bos[o].(validated := false)]))
  {
  }

  lemma UnmarkedOneMore(bos: Bos, bos': Bos, batch: seq<Addr>, i: nat)
    requires Unmarked(bos, bos', batch, i) && i < |batch| && batch[i] in bos
    ensures Unmarked(bos, bos'[batch[i] := bos'[batch[i]].(validated := false)], batch, i + 1)
  {
    assert batch[..i + 1] == batch[..i] + [batch[i]];
  }

  // A batch has gone to the card: every buffer in it waits under the newest fence, nothing is left
  // on the hardware list and no buffer is marked.
  ghost predicate Submitted(s: St, batch: seq<Addr>, written: set<Addr>) {
    && s.hw == [] && NoneValidated(s.bos)
    && forall o :: o in batch ==> o in s.bos && (!s.bos[o].isStatic ==> Waits(s, o, written))
  }

  ghost predicate Waits(s: St, o: Addr, written: set<Addr>)
    requires o in s.bos
  {
    && s.bos[o].block.Some? && s.bos[o].block.value in s.blocks && s.blocks[s.bos[o].block.value].fenced
    && Age(s.bos[o].block.value, s.ticket) == s.emitted
    && !s.bos[o].dirty && (o in written ==> s.bos[o].cardDirty)
  }

  lemma BatchFenced(s: St, t: St, batch: seq<Addr>, written: set<Addr>)
    requires Good(s) && Assembled(s, batch, written, |batch|) && t.emitted > 0
    requires FencedUpTo(s.(emitted := t.emitted), t, |s.hw|)
    ensures forall o :: o in batch ==> o in t.bos && (!t.bos[o].isStatic ==> Waits(t, o, written))
    ensures forall o :: o in t.bos && t.bos[o].validated ==> o in batch
  {
    assert s.hw[..|s.hw|] == s.hw && batch[..|batch|] == batch;
    forall o | o in batch
      ensures o in t.bos && (!t.bos[o].isStatic ==> Waits(t, o, written))
    {
      assert Assembles(s, o, written);
      if !s.bos[o].isStatic {
        ListMembers(s, s.bos[o].block.value);
      }
    }
  }

  lemma BatchUnmarked(s: St, t: St, batch: seq<Addr>, written: set<Addr>)
    requires t == s.(bos := t.bos) && s.hw == [] && Unmarked(s.bos, t.bos, batch, |batch|)
    requires forall o :: o in batch ==> o in s.bos && (!s.bos[o].isStatic ==> Waits(s, o, written))
    requires forall o :: o in s.bos && s.bos[o].validated ==> o in batch
    ensures Submitted(t, batch, written)
  {
  }

  // A buffer that has left the card, its contents saved if they are kept at all.
  function Home(bo: Bo): Bo {
    if bo.block == None then bo
    else if bo.noBackingStore || bo.isStatic || !bo.cardDirty then bo.(block := None)
    else bo.(block := None, cardDirty := false, dirty := true)
  }

  // A buffer leaves the card with its settings; contents that were only there are in its backing store, to
  // be uploaded before the card uses it again, and what was waiting to be uploaded still is.
  ghost predicate LeavesSafely(bo: Bo, bo': Bo) {
    && bo'.block == None && bo'.isStatic == bo.isStatic && bo'.noBackingStore == bo.noBackingStore
    && bo'.backingStore == bo.backingStore
    && (bo.dirty ==> bo'.dirty)
    && (bo.cardDirty && !bo.noBackingStore && !bo.isStatic ==> bo'.dirty && !bo'.cardDirty)
  }

  // Whether it is evicted, kicked out with a batch, or sent home.
  lemma NothingIsLost(bo: Bo)
    requires bo.block.Some?
    ensures LeavesSafely(bo, CardState.Evicted(bo)) && LeavesSafely(bo, Kicked(bo)) && LeavesSafely(bo, Home(bo))
  {
  }

  ghost predicate GoingHome(s: St, t: St) {
    && Ok(t) && t.hw == [] && t.fenced == []
    && (forall o :: o in t.bos <==> o in s.bos)
    && (forall o :: o in t.bos ==> t.bos[o] == s.bos[o] || t.bos[o] == Home(s.bos[o]))
  }

  lemma OneMoreHome(s: St, t: St)
    requires GoingHome(s, t) && t.lru != []
    ensures var b := t.lru[0];
      && b in t.blocks && t.blocks[b].bo.Some? && t.blocks[b].bo.value in t.bos
      && var t' := Drop(t, b).(bos := t.bos[t.blocks[b].bo.value := Home(t.bos[t.blocks[b].bo.value])]);
        GoingHome(s, t') && |t'.lru| < |t.lru|
  {
    var b := t.lru[0];
    assert b in t.lru;
    IdleHasBuffer(t, b);
    FreeIdleIsOk(t, b, Home(t.bos[t.blocks[b].bo.value]));
  }

  lemma AllHome(s: St, t: St)
    requires GoingHome(s, t) && t.lru == []
    ensures t.blocks == map[] && forall o :: o in t.bos ==> t.bos[o] == Home(s.bos[o])
  {
    forall b | b in t.blocks
      ensures false
    {
      OnExactlyOneList(t, b);
    }
  }

  // A block at the front whose fence is so old that it looks pending keeps the whole list as it is.
  lemma OldHeadKeepsAll(s: St, s': St, c: nat, k: nat)
    requires Cleared(s, s', k) && PassUpTo(s.fenced, s.ticket, c, k) && s.fenced != []
    requires Age(s.fenced[0], s.ticket) <= c && WINDOW <= (c - Age(s.fenced[0], s.ticket)) % MAXFENCE
    ensures s'.fenced == s.fenced && s'.lru == s.lru
  {
    assert s.fenced[..0] == [];
  }

  lemma EmittedIsOk(s: St)
    requires Ok(s)
    ensures Ok(s.(emitted := s.emitted + 1))
  {
  }

  // After waiting for a fence younger than all the others the list is empty exactly if all have passed.
  lemma AllPassedIff(s: St, k: nat)
    requires Ok(s) && PassUpTo(s.fenced, s.ticket, s.emitted + 1, k)
    ensures s.fenced[k..] == [] <==> NextPasses(s)
  {
    forall b | b in s.blocks
      ensures s.blocks[b].fenced <==> b in s.fenced
    {
      OnExactlyOneList(s, b);
    }
    forall b | b in s.fenced
      ensures b in s.blocks
    {
      ListMembers(s, b);
    }
  }

  // s' is s after the first k blocks of the batch were moved to the fenced list under the newest fence.
  ghost predicate FencedUpTo(s: St, s': St, k: nat) {
    && Ok(s') && s.emitted > 0 && s'.bos == s.bos && s'.lru == s.lru && s'.emitted == s.emitted
    && k <= |s.hw| && s'.hw == s.hw[k..] && s'.fenced == s.fenced + s.hw[..k]
    && AllStamped(s.blocks, s'.blocks, s.hw[..k], s.emitted) && AllTicketed(s'.ticket, s.hw[..k], s.emitted)
  }

  ghost predicate AllStamped(before: Blocks, after: Blocks, list: seq<Addr>, n: nat)
    requires n > 0
  {
    && (forall b :: b in before <==> b in after)
    && (forall b :: b in before ==> after[b] == if b in list then Stamp(before[b], n) else before[b])
  }

  ghost predicate AllTicketed(ticket: map<Addr, nat>, list: seq<Addr>, n: nat) {
    forall b :: b in list ==> b in ticket && ticket[b] == n
  }

  function Stamp(block: Block, n: nat): Block
    requires n > 0
  {
    block.(fence := CookieOf(n), onHardware := false, fenced := true)
  }

  lemma FenceOneMore(s: St, t: St, k: nat)
    requires Ok(s) && FencedUpTo(s, t, k) && t.hw != [] && t.hw[0] in t.blocks
    ensures FencedUpTo(s, FenceFirst(t), k + 1)
  {
    FenceFirstIsOk(t);
    FirstBusy(t);
    var b := t.hw[0];
    assert s.hw[..k + 1] == s.hw[..k] + [b];
    StampOneMore(s.blocks, t.blocks, s.hw[..k], s.emitted, b);
    MoveReplaces(t, b, Stamp(t.blocks[b], t.emitted));
  }

  lemma StampOneMore(before: Blocks, after: Blocks, list: seq<Addr>, n: nat, b: Addr)
    requires n > 0 && AllStamped(before, after, list, n) && b in after && after[b].onHardware
    ensures AllStamped(before, after[b := Stamp(after[b], n)], list + [b], n)
  {
  }

  // The first k fences pass the test against the c-th, and the next one does not.
  ghost predicate PassUpTo(fenced: seq<Addr>, ticket: map<Addr, nat>, c: nat, k: nat) {
    && k <= |fenced|
    && (forall j :: 0 <= j < k ==> Passes(Age(fenced[j], ticket), c))
    && (k < |fenced| ==> !Passes(Age(fenced[k], ticket), c))
  }

  // The first k fences pass the test.
  ghost predicate FirstPass(fenced: seq<Addr>, ticket: map<Addr, nat>, c: nat, k: nat) {
    k == 0 || (k <= |fenced| && Passes(Age(fenced[k - 1], ticket), c) && FirstPass(fenced, ticket, c, k - 1))
  }

  lemma {:induction false} AllOfFirst(fenced: seq<Addr>, ticket: map<Addr, nat>, c: nat, k: nat)
    requires FirstPass(fenced, ticket, c, k) && k <= |fenced|
    ensures forall j :: 0 <= j < k ==> Passes(Age(fenced[j], ticket), c)
  {
    if k > 0 { AllOfFirst(fenced, ticket, c, k - 1); }
  }

  // The first k fences are not younger than c, the others are.
  ghost predicate Split(fenced: seq<Addr>, ticket: map<Addr, nat>, c: nat, k: nat) {
    forall j :: 0 <= j < |fenced| ==> (j < k <==> Age(fenced[j], ticket) <= c)
  }

  // The test is right about the last fence that passed and the first that did not.
  ghost predicate JudgedAt(fenced: seq<Addr>, ticket: map<Addr, nat>, c: nat, k: nat) {
    && (0 < k <= |fenced| ==> Judged(Age(fenced[k - 1], ticket), c))
    && (k < |fenced| ==> Judged(Age(fenced[k], ticket), c))
  }

  // Because blocks are ordered by age, these two decide about all others.
  lemma SplitIff(fenced: seq<Addr>, ticket: map<Addr, nat>, c: nat, k: nat)
    requires Ordered(fenced, ticket) && PassUpTo(fenced, ticket, c, k)
    ensures Split(fenced, ticket, c, k) <==> JudgedAt(fenced, ticket, c, k)
  {
    if k > 0 { Opposite(Age(fenced[k - 1], ticket), c); }
    if k < |fenced| { Opposite(Age(fenced[k], ticket), c); }
  }

  // The blocks of list that still have a buffer.
  function Owned(list: seq<Addr>, blocks: Blocks): seq<Addr> {
    if list == [] then []
    else (if list[0] in blocks && blocks[list[0]].bo.Some? then [list[0]] else []) + Owned(list[1..], blocks)
  }

  lemma {:induction false} OwnedLast(list: seq<Addr>, b: Addr, blocks: Blocks)
    ensures Owned(list + [b], blocks) ==
            Owned(list, blocks) + (if b in blocks && blocks[b].bo.Some? then [b] else [])
    decreases |list|
  {
    if list == [] {
      assert (list + [b])[1..] == [];
    } else {
      assert (list + [b])[1..] == list[1..] + [b];
      OwnedLast(list[1..], b, blocks);
    }
  }

  // Releasing the first fenced block leaves the records of the others alone.
  lemma OthersUntouched(s: St)
    requires Ok(s) && s.fenced != [] && s.fenced[0] in s.blocks
    ensures Untouched(s, Release(s), s.fenced[1..])
  {
    forall b | b in s.fenced[1..]
      ensures b in s.blocks && b != s.fenced[0]
    {
      assert b in s.fenced;
      ListMembers(s, b);
      FirstOnlyOnce(s.fenced, PendingOf(s.blocks));
    }
  }

  lemma FirstOnlyOnce(list: seq<Addr>, members: set<Addr>)
    requires multiset(list) == multiset(members) && list != []
    ensures list[0] !in list[1..]
  {
    assert list == [list[0]] + list[1..];
    assert multiset(list)[list[0]] == 1 + multiset(list[1..])[list[0]];
  }

  function CopiedBack(bos: Bos, o: Addr, skipDirtyCopy: bool): Bos
    requires o in bos
  {
    if !skipDirtyCopy && !bos[o].isStatic && !bos[o].noBackingStore && bos[o].cardDirty
    then bos[o := bos[o].(cardDirty := false, dirty := true)] else bos
  }

  lemma DetachedCopiesBack(bos: Bos, o: Addr, bos': Bos)
    requires CopyBackReady(bos) && o in bos && !bos[o].isStatic
    requires bos' == bos[o := bos[o].(dirty := true)][o := bos[o].(dirty := true).(block := None)]
    ensures CopyBackReady(bos') && CopiedBack(bos', o, false) == bos[o := CardState.Evicted(bos[o])]
  {
  }

  ghost predicate EvictsTo(s: St, b: Addr, s': St) {
    && b in s.blocks && s.blocks[b].bo.Some? && s.blocks[b].bo.value in s.bos
    && s' == Evict(s, b)
  }

  // The block's last fence is not younger than maxFence, or nobody asks.
  predicate OldEnough(s: St, b: Addr, maxFence: nat) {
    b in s.blocks && (s.blocks[b].fence == 0 || maxFence == 0 || FenceLte(s.blocks[b].fence, maxFence))
  }

  // The block's buffer asked not to be evicted.
  predicate Kept(s: St, b: Addr) {
    && b in s.blocks && s.blocks[b].bo.Some? && s.blocks[b].bo.value in s.bos
    && s.bos[s.blocks[b].bo.value].noFenceSubdata
  }
}
