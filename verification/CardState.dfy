/**
 The fake buffer manager of intel_bufmgr_fake.c.

 A block of card memory is on exactly one of three lists: lru (idle), on_hardware (in the batch being
 built) and fenced (in a submitted batch).  Fences are numbered cyclically, so "has this fence
 passed?" is a comparison modulo the cycle that is right only within a window.
 */
module Fences {

  const MAXFENCE := 0x7fff_ffff
  const WINDOW := 0x100_0000
  const TWO_32 := 0x1_0000_0000

  // FENCE_LTE, in `unsigned` arithmetic.
  predicate FenceLte(a: nat, b: nat) {
    if a == b then true
    else if a < b && (b - a) % TWO_32 < WINDOW then true
    else if a > b && (MAXFENCE - a + b) % TWO_32 < WINDOW then true
    else false
  }

  predicate Cookie(a: int) {
    1 <= a <= MAXFENCE
  }

  // On the cyclic numbers 1 .. MAXFENCE the test is: b is less than a window ahead of a.
  lemma FenceLteIsCyclic(a: nat, b: nat)
    requires Cookie(a) && Cookie(b)
    ensures FenceLte(a, b) <==> (b - a) % MAXFENCE < WINDOW
  {
  }

  // The cookie of the n-th fence ever emitted.
  function CookieOf(n: nat): (c: nat)
    requires n > 0
    ensures Cookie(c)
  {
    (n - 1) % MAXFENCE + 1
  }

  // The test as it comes out for the n-th and the c-th fence.
  predicate Passes(n: nat, c: nat) {
    (c - n) % MAXFENCE < WINDOW
  }

  lemma TestOfCookies(n: nat, c: nat)
    requires n > 0 && c > 0
    ensures FenceLte(CookieOf(n), CookieOf(c)) <==> Passes(n, c)
  {
    FenceLteIsCyclic(CookieOf(n), CookieOf(c));
    CyclicDifference(n, c);
  }

  lemma CyclicDifference(n: nat, c: nat)
    requires n > 0 && c > 0
    ensures (CookieOf(c) - CookieOf(n)) % MAXFENCE == (c - n) % MAXFENCE
  {
  }

  // So two fences are compared by age if and only if the older one, where it should have passed, is on
  // the cycle less than a window behind, or the younger one, where it should not, is far enough ahead.
  predicate Judged(n: nat, c: nat) {
    if n <= c then (c - n) % MAXFENCE < WINDOW else 0 < (n - c) % MAXFENCE <= MAXFENCE - WINDOW
  }

  lemma TestIsRightIff(n: nat, c: nat)
    requires n > 0 && c > 0
    ensures (FenceLte(CookieOf(n), CookieOf(c)) <==> n <= c) <==> Judged(n, c)
  {
    TestOfCookies(n, c);
    Opposite(n, c);
  }

  lemma Opposite(n: nat, c: nat)
    ensures (Passes(n, c) <==> n <= c) <==> Judged(n, c)
  {
  }

  // A fence looks as if it had not passed for all of each cycle but its first window.
  lemma OldFenceLooksPending(n: nat, age: nat)
    requires n > 0
    ensures !FenceLte(CookieOf(n), CookieOf(n + age)) <==> WINDOW <= age % MAXFENCE
  {
    TestOfCookies(n, n + age);
  }
}

module Lists {

  // DRMLISTDEL
  function Without<T(==)>(s: seq<T>, x: T): seq<T> {
    if s == [] then [] else if s[0] == x then s[1..] else [s[0]] + Without(s[1..], x)
  }

  lemma {:induction false} WithoutElements<T>(s: seq<T>, x: T)
    ensures multiset(Without(s, x)) == multiset(s) - multiset{x}
    ensures x !in s ==> Without(s, x) == s
    ensures x in s ==> |Without(s, x)| == |s| - 1
  {
    if s != [] {
      assert s == [s[0]] + s[1..];
      assert multiset(s) == multiset{s[0]} + multiset(s[1..]);
      if s[0] != x {
        WithoutElements(s[1..], x);
        assert multiset(Without(s, x)) == multiset{s[0]} + multiset(Without(s[1..], x));
      }
    }
  }

  lemma RemoveElement<T>(s: set<T>, x: T)
    requires x in s
    ensures multiset(s - {x}) == multiset(s) - multiset{x}
  {
  }

  lemma AddElement<T>(s: set<T>, x: T)
    requires x !in s
    ensures multiset(s + {x}) == multiset(s) + multiset{x}
  {
  }
}

module CardState {
  import opened Fences
  import opened Lists
  import opened Options

  // Blocks and buffers are identified by their addresses; a pointer that may be NULL is an Option.
  type Addr = nat
  type Pointer = Option<Addr>

  datatype Block = Block(onHardware: bool, fenced: bool, fence: nat, bo: Pointer)

  datatype Bo = Bo(
    isStatic: bool,          // static buffers are pinned and never get a block
    noBackingStore: bool,
    noFenceSubdata: bool,
    block: Pointer,
    backingStore: bool,      // is there one
    dirty: bool,
    cardDirty: bool,
    validated: bool)

  function NewBo(isStatic: bool): Bo {
    Bo(isStatic, false, false, None, false, false, false, false)
  }

  type Blocks = map<Addr, Block>
  type Bos = map<Addr, Bo>

  // The manager's lists and records.  `ticket` says which emission a block's fence came from.
  datatype St = St(lru: seq<Addr>, hw: seq<Addr>, fenced: seq<Addr>, blocks: Blocks, bos: Bos,
                   ticket: map<Addr, nat>, emitted: nat)

  // ----- which blocks the flags put on which list -----

  ghost function IdleOf(blocks: Blocks): set<Addr> {
    set b | b in blocks && !blocks[b].onHardware && !blocks[b].fenced
  }

  ghost function BusyOf(blocks: Blocks): set<Addr> {
    set b | b in blocks && blocks[b].onHardware
  }

  ghost function PendingOf(blocks: Blocks): set<Addr> {
    set b | b in blocks && blocks[b].fenced
  }

  // The three lists hold exactly the blocks their flags name, each once.
  ghost predicate Listed(s: St) {
    && multiset(s.lru) == multiset(IdleOf(s.blocks))
    && multiset(s.hw) == multiset(BusyOf(s.blocks))
    && multiset(s.fenced) == multiset(PendingOf(s.blocks))
  }

  // No block is flagged for two lists, and an idle block has a buffer.
  ghost predicate Flagged(blocks: Blocks) {
    forall b :: b in blocks ==>
      && !(blocks[b].onHardware && blocks[b].fenced)
      && (!blocks[b].onHardware && !blocks[b].fenced ==> blocks[b].bo.Some?)
  }

  // Fenced blocks carry the cookie of an emitted fence ...
  ghost predicate Stamped(blocks: Blocks, ticket: map<Addr, nat>, emitted: nat) {
    forall b :: b in blocks && blocks[b].fenced ==>
      b in ticket && 1 <= ticket[b] <= emitted && blocks[b].fence == CookieOf(ticket[b])
  }

  function Age(b: Addr, ticket: map<Addr, nat>): nat {
    if b in ticket then ticket[b] else 0
  }

  // ... older fences first.
  ghost predicate Ordered(fenced: seq<Addr>, ticket: map<Addr, nat>) {
    forall i, j :: 0 <= i < j < |fenced| ==> Age(fenced[i], ticket) <= Age(fenced[j], ticket)
  }

  // A block and its buffer point at each other; only a buffer that is gone leaves a block without.
  ghost predicate Linked(blocks: Blocks, bos: Bos) {
    && (forall b :: b in blocks && blocks[b].bo.Some? ==>
          blocks[b].bo.value in bos && bos[blocks[b].bo.value].block == Some(b))
    && (forall o :: o in bos && bos[o].block.Some? ==>
          bos[o].block.value in blocks && blocks[bos[o].block.value].bo == Some(o) && !bos[o].isStatic)
  }

  // Card data that may have to be copied back has a place to go.
  ghost predicate CopyBackReady(bos: Bos) {
    forall o :: o in bos && bos[o].cardDirty && !bos[o].noBackingStore && !bos[o].isStatic ==> bos[o].backingStore
  }

  // What every run keeps.
  ghost predicate Ok(s: St) {
    && Listed(s) && Flagged(s.blocks)
    && Stamped(s.blocks, s.ticket, s.emitted) && Ordered(s.fenced, s.ticket)
    && Linked(s.blocks, s.bos) && CopyBackReady(s.bos)
  }

  lemma ListMembers(s: St, b: Addr)
    requires Listed(s)
    ensures b in s.lru <==> b in IdleOf(s.blocks)
    ensures b in s.hw <==> b in BusyOf(s.blocks)
    ensures b in s.fenced <==> b in PendingOf(s.blocks)
  {
    assert b in s.lru <==> b in multiset(s.lru);
    assert b in s.hw <==> b in multiset(s.hw);
    assert b in s.fenced <==> b in multiset(s.fenced);
  }

  // In every good state a block is on exactly one list.
  lemma OnExactlyOneList(s: St, b: Addr)
    requires Ok(s) && b in s.blocks
    ensures multiset(s.lru)[b] + multiset(s.hw)[b] + multiset(s.fenced)[b] == 1
    ensures s.blocks[b].onHardware <==> b in s.hw
    ensures s.blocks[b].fenced <==> b in s.fenced
    ensures b in s.lru ==> s.blocks[b].bo.Some? && s.blocks[b].bo.value in s.bos
  {
  }

  // ----- the two ways a block changes lists -----

  // DRMLISTDEL, and the record gone
  function Drop(s: St, b: Addr): St {
    s.(lru := Without(s.lru, b), hw := Without(s.hw, b), fenced := Without(s.fenced, b), blocks := s.blocks - {b})
  }

  lemma DropFromList(list: seq<Addr>, members: set<Addr>, b: Addr)
    requires multiset(list) == multiset(members)
    ensures multiset(Without(list, b)) == multiset(members - {b})
    ensures b !in members ==> Without(list, b) == list
  {
    WithoutElements(list, b);
    assert b in list <==> b in multiset(list);
    if b in members { RemoveElement(members, b); } else { assert members - {b} == members; }
  }

  lemma MembersWithout(blocks: Blocks, b: Addr)
    ensures IdleOf(blocks - {b}) == IdleOf(blocks) - {b}
    ensures BusyOf(blocks - {b}) == BusyOf(blocks) - {b}
    ensures PendingOf(blocks - {b}) == PendingOf(blocks) - {b}
  {
  }

  lemma DropKeepsLists(s: St, b: Addr)
    requires Listed(s) && b in s.blocks
    ensures Listed(Drop(s, b))
    ensures b !in IdleOf(s.blocks) ==> Without(s.lru, b) == s.lru
    ensures b !in BusyOf(s.blocks) ==> Without(s.hw, b) == s.hw
    ensures b !in PendingOf(s.blocks) ==> Without(s.fenced, b) == s.fenced
  {
    MembersWithout(s.blocks, b);
    DropFromList(s.lru, IdleOf(s.blocks), b);
    DropFromList(s.hw, BusyOf(s.blocks), b);
    DropFromList(s.fenced, PendingOf(s.blocks), b);
  }

  lemma DropKeepsOrder(s: seq<Addr>, b: Addr, ticket: map<Addr, nat>)
    requires Ordered(s, ticket)
    ensures Ordered(Without(s, b), ticket)
  {
    if b !in s {
      WithoutElements(s, b);
    } else {
      var k := WithoutIsCut(s, b);
    }
  }

  lemma {:induction false} WithoutIsCut(s: seq<Addr>, b: Addr) returns (k: nat)
    requires b in s
    ensures k < |s| && s[k] == b && Without(s, b) == s[..k] + s[k + 1..]
  {
    if s[0] == b {
      k := 0;
    } else {
      k := WithoutIsCut(s[1..], b);
      k := k + 1;
      assert s[..k] == [s[0]] + s[1..][..k - 1];
    }
  }

  // DRMLISTADDTAIL of a block to the list its flags name
  function Add(s: St, b: Addr, block: Block): St {
    if block.onHardware then s.(hw := s.hw + [b], blocks := s.blocks[b := block])
    else if block.fenced then s.(fenced := s.fenced + [b], blocks := s.blocks[b := block])
    else s.(lru := s.lru + [b], blocks := s.blocks[b := block])
  }

  lemma MembersWith(blocks: Blocks, b: Addr, block: Block)
    requires b !in blocks
    ensures var blocks' := blocks[b := block];
      && IdleOf(blocks') == (if !block.onHardware && !block.fenced then IdleOf(blocks) + {b} else IdleOf(blocks))
      && BusyOf(blocks') == (if block.onHardware then BusyOf(blocks) + {b} else BusyOf(blocks))
      && PendingOf(blocks') == (if block.fenced then PendingOf(blocks) + {b} else PendingOf(blocks))
  {
  }

  lemma AddKeepsLists(s: St, b: Addr, block: Block)
    requires Listed(s) && b !in s.blocks && !(block.onHardware && block.fenced)
    ensures Listed(Add(s, b, block))
  {
    MembersWith(s.blocks, b, block);
    if block.onHardware { AddElement(BusyOf(s.blocks), b); }
    else if block.fenced { AddElement(PendingOf(s.blocks), b); }
    else { AddElement(IdleOf(s.blocks), b); }
  }

  lemma AppendKeepsOrder(s: seq<Addr>, b: Addr, ticket: map<Addr, nat>)
    requires Ordered(s, ticket) && forall c :: c in s ==> Age(c, ticket) <= Age(b, ticket)
    ensures Ordered(s + [b], ticket)
  {
  }

  // ----- block and buffer pointers -----

  lemma LinkNew(blocks: Blocks, bos: Bos, b: Addr, o: Addr, block: Block)
    requires Linked(blocks, bos) && b !in blocks && o in bos && bos[o].block == None && !bos[o].isStatic
    requires block.bo == Some(o)
    ensures Linked(blocks[b := block], bos[o := bos[o].(block := Some(b))])
  {
  }

  lemma Unlink(blocks: Blocks, bos: Bos, b: Addr, o: Addr, bo: Bo)
    requires Linked(blocks, bos) && b in blocks && blocks[b].bo == Some(o) && bo.block == None
    ensures Linked(blocks - {b}, bos[o := bo])
  {
  }

  lemma Unbind(blocks: Blocks, bos: Bos, b: Addr, o: Addr)
    requires Linked(blocks, bos) && b in blocks && blocks[b].bo == Some(o)
    ensures Linked(blocks[b := blocks[b].(bo := None)], bos - {o})
    ensures Linked(blocks - {b}, bos - {o})
  {
  }

  lemma DropOrphan(blocks: Blocks, bos: Bos, b: Addr)
    requires Linked(blocks, bos) && b in blocks && blocks[b].bo == None
    ensures Linked(blocks - {b}, bos)
  {
  }

  lemma Reflag(blocks: Blocks, bos: Bos, b: Addr, block: Block)
    requires Linked(blocks, bos) && b in blocks && block.bo == blocks[b].bo
    ensures Linked(blocks[b := block], bos)
  {
  }

  lemma Retouch(blocks: Blocks, bos: Bos, o: Addr, bo: Bo)
    requires Linked(blocks, bos) && o in bos && bo.block == bos[o].block && bo.isStatic == bos[o].isStatic
    ensures Linked(blocks, bos[o := bo])
  {
  }

  // ----- the transitions -----

  // alloc_block: a new idle block b for buffer o
  function Alloc(s: St, o: Addr, b: Addr): St
    requires o in s.bos
  {
    Add(s, b, Block(false, false, 0, Some(o))).(bos := s.bos[o := s.bos[o].(block := Some(b))])
  }

  lemma AllocIsOk(s: St, o: Addr, b: Addr)
    requires Ok(s) && o in s.bos && s.bos[o].block == None && !s.bos[o].isStatic && b !in s.blocks
    ensures Ok(Alloc(s, o, b))
  {
    AddKeepsLists(s, b, Block(false, false, 0, Some(o)));
    LinkNew(s.blocks, s.bos, b, o, Block(false, false, 0, Some(o)));
  }

  // A buffer that has lost its block: dirty, and its card data copied back if that is kept at all.
  function Evicted(bo: Bo): Bo {
    bo.(block := None, dirty := true, cardDirty := bo.cardDirty && (bo.noBackingStore || bo.isStatic))
  }

  // evict_lru and evict_mru: idle block b goes
  function Evict(s: St, b: Addr): St
    requires b in s.blocks && s.blocks[b].bo.Some? && s.blocks[b].bo.value in s.bos
  {
    var o := s.blocks[b].bo.value;
    Drop(s, b).(bos := s.bos[o := Evicted(s.bos[o])])
  }

  // An idle block always has a buffer to evict, and that buffer is not a pinned one.
  lemma IdleHasBuffer(s: St, b: Addr)
    requires Ok(s) && b in s.lru
    ensures b in s.blocks && !s.blocks[b].onHardware && !s.blocks[b].fenced && s.blocks[b].bo.Some?
    ensures s.blocks[b].bo.value in s.bos && !s.bos[s.blocks[b].bo.value].isStatic
    ensures s.bos[s.blocks[b].bo.value].block == Some(b)
  {
    ListMembers(s, b);
  }

  lemma EvictIsOk(s: St, b: Addr)
    requires Ok(s) && b in s.lru
    ensures b in s.blocks && s.blocks[b].bo.Some? && s.blocks[b].bo.value in s.bos
    ensures Ok(Evict(s, b)) && Evict(s, b).hw == s.hw && Evict(s, b).fenced == s.fenced
    ensures |Evict(s, b).lru| < |s.lru|
  {
    IdleHasBuffer(s, b);
    FreeIdleIsOk(s, b, Evicted(s.bos[s.blocks[b].bo.value]));
  }

  // An idle block can be freed; its buffer loses it, and has no unsaved card data left.
  lemma FreeIdleIsOk(s: St, b: Addr, bo: Bo)
    requires Ok(s) && b in s.lru && bo.block == None && (bo.cardDirty ==> bo.noBackingStore || bo.isStatic)
    ensures b in s.blocks && s.blocks[b].bo.Some? && s.blocks[b].bo.value in s.bos
    ensures var s' := Drop(s, b).(bos := s.bos[s.blocks[b].bo.value := bo]);
      Ok(s') && s'.hw == s.hw && s'.fenced == s.fenced && |s'.lru| < |s.lru|
  {
    IdleHasBuffer(s, b);
    DropKeepsLists(s, b);
    WithoutElements(s.lru, b);
    Unlink(s.blocks, s.bos, b, s.blocks[b].bo.value, bo);
  }

  lemma MoveKeepsLists(s: St, b: Addr, block: Block)
    requires Listed(s) && b in s.blocks && !(block.onHardware && block.fenced)
    ensures Listed(Add(Drop(s, b), b, block))
  {
    DropKeepsLists(s, b);
    AddKeepsLists(Drop(s, b), b, block);
  }

  lemma MoveReplaces(s: St, b: Addr, block: Block)
    ensures Add(Drop(s, b), b, block).blocks == s.blocks[b := block]
  {
    assert (s.blocks - {b})[b := block] == s.blocks[b := block];
  }

  // A block that keeps its buffer moves to the list its new flags name.
  lemma MoveIsOk(s: St, b: Addr, block: Block)
    requires Listed(s) && Flagged(s.blocks) && Linked(s.blocks, s.bos) && b in s.blocks
    requires block.bo == s.blocks[b].bo && !(block.onHardware && block.fenced)
    requires !block.onHardware && !block.fenced ==> block.bo.Some?
    ensures var s' := Add(Drop(s, b), b, block);
      s'.blocks == s.blocks[b := block] && Listed(s') && Flagged(s'.blocks) && Linked(s'.blocks, s.bos)
  {
    MoveKeepsLists(s, b, block);
    MoveReplaces(s, b, block);
    Reflag(s.blocks, s.bos, b, block);
  }

  // ... and the fences of the others stay as they are.
  lemma MoveOffFenced(s: St, b: Addr, block: Block)
    requires Stamped(s.blocks, s.ticket, s.emitted) && Ordered(s.fenced, s.ticket) && b in s.blocks && !block.fenced
    ensures Stamped(s.blocks[b := block], s.ticket, s.emitted) && Ordered(Without(s.fenced, b), s.ticket)
  {
    DropKeepsOrder(s.fenced, b, s.ticket);
  }

  // clear_fenced on the first fenced block: free an orphan, or return the block to the lru list
  function Release(s: St): St
    requires s.fenced != [] && s.fenced[0] in s.blocks
  {
    var b := s.fenced[0];
    var block := s.blocks[b].(fenced := false);
    if block.bo == None then Drop(s, b) else Add(Drop(s, b), b, block)
  }

  lemma FirstFenced(s: St)
    requires Ok(s) && s.fenced != []
    ensures var b := s.fenced[0];
      && b in s.blocks && s.blocks[b].fenced && !s.blocks[b].onHardware
      && Without(s.fenced, b) == s.fenced[1..] && b in s.ticket
  {
    assert s.fenced[0] in s.fenced;
    ListMembers(s, s.fenced[0]);
  }

  lemma ReleaseOrphanIsOk(s: St)
    requires Ok(s) && s.fenced != [] && s.fenced[0] in s.blocks && s.blocks[s.fenced[0]].bo == None
    ensures Ok(Release(s)) && Release(s).hw == s.hw && Release(s).fenced == s.fenced[1..] && Release(s).lru == s.lru
  {
    var b := s.fenced[0];
    FirstFenced(s);
    DropKeepsLists(s, b);
    DropKeepsOrder(s.fenced, b, s.ticket);
    DropOrphan(s.blocks, s.bos, b);
  }

  lemma ReleaseOwnedIsOk(s: St)
    requires Ok(s) && s.fenced != [] && s.fenced[0] in s.blocks && s.blocks[s.fenced[0]].bo != None
    ensures Ok(Release(s)) && Release(s).hw == s.hw && Release(s).fenced == s.fenced[1..]
    ensures Release(s).lru == s.lru + [s.fenced[0]]
  {
    var b := s.fenced[0];
    FirstFenced(s);
    DropKeepsLists(s, b);
    MoveIsOk(s, b, s.blocks[b].(fenced := false));
    MoveOffFenced(s, b, s.blocks[b].(fenced := false));
  }

  // fence_blocks on the first block of the batch
  function FenceFirst(s: St): St
    requires s.hw != [] && s.hw[0] in s.blocks && s.emitted > 0
  {
    var b := s.hw[0];
    var block := s.blocks[b].(fence := CookieOf(s.emitted), onHardware := false, fenced := true);
    Add(Drop(s, b), b, block).(ticket := s.ticket[b := s.emitted])
  }

  lemma FirstBusy(s: St)
    requires Ok(s) && s.hw != []
    ensures var b := s.hw[0];
      && b in s.blocks && s.blocks[b].onHardware && !s.blocks[b].fenced
      && Without(s.hw, b) == s.hw[1..]
  {
    assert s.hw[0] in s.hw;
    ListMembers(s, s.hw[0]);
  }

  lemma FenceFirstIsOk(s: St)
    requires Ok(s) && s.hw != [] && s.emitted > 0
    ensures s.hw[0] in s.blocks && Ok(FenceFirst(s))
    ensures FenceFirst(s).hw == s.hw[1..] && FenceFirst(s).fenced == s.fenced + [s.hw[0]] && FenceFirst(s).lru == s.lru
  {
    var b := s.hw[0];
    FirstBusy(s);
    var block := s.blocks[b].(fence := CookieOf(s.emitted), onHardware := false, fenced := true);
    DropKeepsLists(s, b);
    MoveIsOk(s, b, block);
    FencedAges(s, b);
    AppendKeepsOrder(s.fenced, b, s.ticket[b := s.emitted]);
  }

  // A block that is not fenced can be stamped without disturbing the order of those that are.
  lemma FencedAges(s: St, b: Addr)
    requires Ok(s) && b in s.blocks && !s.blocks[b].fenced
    ensures var ticket := s.ticket[b := s.emitted];
      Ordered(s.fenced, ticket) && forall c :: c in s.fenced ==> Age(c, ticket) <= s.emitted
  {
    var ticket := s.ticket[b := s.emitted];
    forall c | c in s.fenced
      ensures c != b && Age(c, ticket) == Age(c, s.ticket) <= s.emitted
    {
      ListMembers(s, c);
    }
  }

  // the end of bo_validate: buffer o's block joins the batch, wherever it was
  function ToHardware(s: St, o: Addr): St
    requires o in s.bos && s.bos[o].block.Some? && s.bos[o].block.value in s.blocks
  {
    var b := s.bos[o].block.value;
    var block := s.blocks[b].(fenced := false, onHardware := true);
    Add(Drop(s, b), b, block).(bos := s.bos[o := s.bos[o].(validated := true)])
  }

  lemma ToHardwareIsOk(s: St, o: Addr)
    requires Ok(s) && o in s.bos && s.bos[o].block.Some?
    ensures s.bos[o].block.value in s.blocks && Ok(ToHardware(s, o))
  {
    var b := s.bos[o].block.value;
    var block := s.blocks[b].(fenced := false, onHardware := true);
    MoveIsOk(s, b, block);
    MoveOffFenced(s, b, block);
    Retouch(s.blocks[b := block], s.bos, o, s.bos[o].(validated := true));
  }

  // kick_all on the first block of the batch
  function Kicked(bo: Bo): Bo {
    bo.(block := None, validated := false,
        cardDirty := bo.cardDirty && (bo.noBackingStore || bo.isStatic),
        dirty := bo.dirty || !bo.noBackingStore)
  }

  function KickFirst(s: St): St
    requires s.hw != [] && s.hw[0] in s.blocks && s.blocks[s.hw[0]].bo.Some? && s.blocks[s.hw[0]].bo.value in s.bos
  {
    var o := s.blocks[s.hw[0]].bo.value;
    Drop(s, s.hw[0]).(bos := s.bos[o := Kicked(s.bos[o])])
  }

  lemma KickFirstIsOk(s: St)
    requires Ok(s) && s.hw != [] && s.hw[0] in s.blocks && s.blocks[s.hw[0]].bo.Some?
    ensures s.blocks[s.hw[0]].bo.value in s.bos && !s.bos[s.blocks[s.hw[0]].bo.value].isStatic
    ensures Ok(KickFirst(s)) && KickFirst(s).hw == s.hw[1..]
    ensures KickFirst(s).lru == s.lru && KickFirst(s).fenced == s.fenced
  {
    var b := s.hw[0];
    var o := s.blocks[b].bo.value;
    FirstBusy(s);
    DropKeepsLists(s, b);
    Unlink(s.blocks, s.bos, b, o, Kicked(s.bos[o]));
  }

  // the last bo_unreference: the buffer goes; its block goes too, or is orphaned while fenced
  function Unreference(s: St, o: Addr): St
    requires o in s.bos
  {
    var s' := s.(bos := s.bos - {o});
    if s.bos[o].block == None || s.bos[o].block.value !in s.blocks then s'
    else
      var b := s.bos[o].block.value;
      if s.blocks[b].onHardware || s.blocks[b].fenced
      then s'.(blocks := s.blocks[b := s.blocks[b].(bo := None)])
      else Drop(s', b)
  }

  lemma UnreferenceIsOk(s: St, o: Addr)
    requires Ok(s) && o in s.bos
    ensures Ok(Unreference(s, o)) && Unreference(s, o).hw == s.hw && Unreference(s, o).fenced == s.fenced
  {
    if s.bos[o].block.Some? {
      var b := s.bos[o].block.value;
      Unbind(s.blocks, s.bos, b, o);
      if s.blocks[b].onHardware || s.blocks[b].fenced {
        OrphanIsOk(s, b);
      } else {
        DropKeepsLists(s, b);
      }
    }
  }

  lemma OrphanIsOk(s: St, b: Addr)
    requires Listed(s) && Flagged(s.blocks) && Stamped(s.blocks, s.ticket, s.emitted)
    requires b in s.blocks && (s.blocks[b].onHardware || s.blocks[b].fenced)
    ensures var blocks := s.blocks[b := s.blocks[b].(bo := None)];
      Listed(s.(blocks := blocks)) && Flagged(blocks) && Stamped(blocks, s.ticket, s.emitted)
  {
  }

  // ----- what memory management leaves alone -----

  // Only the memory of idle buffers has moved: the batch being built, the buffers' own settings and
  // the outstanding fences are as before (some of the fences may have gone).
  ghost predicate Later(s: St, s': St) {
    && s'.hw == s.hw && s'.emitted == s.emitted && s'.ticket == s.ticket
    && (forall b :: b in s.blocks && s.blocks[b].onHardware ==> b in s'.blocks && s'.blocks[b] == s.blocks[b])
    && (forall b :: b in s'.blocks && s'.blocks[b].fenced ==> b in s.blocks && s.blocks[b].fenced)
    && (forall o :: o in s.bos <==> o in s'.bos)
    && (forall o :: o in s.bos ==> SameSettings(s.bos[o], s'.bos[o]))
    && (forall o :: o in s.bos && InBatch(s, o) ==> s'.bos[o] == s.bos[o])
  }

  ghost predicate InBatch(s: St, o: Addr)
    requires o in s.bos
  {
    s.bos[o].block.Some? && s.bos[o].block.value in s.blocks && s.blocks[s.bos[o].block.value].onHardware
  }

  predicate SameSettings(a: Bo, b: Bo) {
    && a.isStatic == b.isStatic && a.noBackingStore == b.noBackingStore && a.noFenceSubdata == b.noFenceSubdata
    && a.backingStore == b.backingStore && a.validated == b.validated
  }

  lemma AllocIsLater(s: St, o: Addr, b: Addr)
    requires o in s.bos && b !in s.blocks && s.bos[o].block == None
    ensures Later(s, Alloc(s, o, b))
  {
  }

  lemma EvictIsLater(s: St, b: Addr)
    requires Ok(s) && b in s.lru && b in s.blocks && s.blocks[b].bo.Some? && s.blocks[b].bo.value in s.bos
    ensures Later(s, Evict(s, b))
    ensures forall o :: o in s.bos && o != s.blocks[b].bo.value ==> Evict(s, b).bos[o] == s.bos[o]
  {
    EvictIsOk(s, b);
    IdleHasBuffer(s, b);
  }

  lemma ReleaseIsLater(s: St)
    requires Ok(s) && s.fenced != [] && s.fenced[0] in s.blocks
    ensures Later(s, Release(s)) && Release(s).bos == s.bos
  {
    ReleasedRecords(s, Release(s));
    assert forall o :: o in s.bos ==> SameSettings(s.bos[o], s.bos[o]);
  }

  lemma ReleasedRecords(s: St, s': St)
    requires Ok(s) && s.fenced != [] && s.fenced[0] in s.blocks && s' == Release(s)
    ensures s'.hw == s.hw && s'.bos == s.bos && s'.ticket == s.ticket && s'.emitted == s.emitted
    ensures forall b :: b in s.blocks && b != s.fenced[0] ==> b in s'.blocks && s'.blocks[b] == s.blocks[b]
    ensures forall b :: b in s'.blocks ==> b in s.blocks && (s'.blocks[b].fenced ==> s.blocks[b].fenced)
    ensures !s.blocks[s.fenced[0]].onHardware
  {
    FirstFenced(s);
    DropKeepsLists(s, s.fenced[0]);
  }

  lemma LaterTransitive(s: St, t: St, u: St)
    requires Later(s, t) && Later(t, u)
    ensures Later(s, u)
  {
  }

  // No buffer of the batch being built is dirty, and `validated` marks exactly these buffers.
  ghost predicate Building(s: St) {
    && (forall b :: b in s.blocks && s.blocks[b].onHardware ==>
          s.blocks[b].bo.Some? && s.blocks[b].bo.value in s.bos && s.bos[s.blocks[b].bo.value].validated)
    && (forall o :: o in s.bos && s.bos[o].validated ==> InBatch(s, o) && !s.bos[o].dirty)
  }

  lemma LaterIsBuilding(s: St, s': St)
    requires Ok(s) && Building(s) && Later(s, s') && Ok(s')
    ensures Building(s')
  {
    forall b | b in s'.blocks && s'.blocks[b].onHardware
      ensures b in s.blocks && s.blocks[b].onHardware
    {
      ListMembers(s', b);
      ListMembers(s, b);
    }
  }

  lemma ToHardwareIsBuilding(s: St, o: Addr)
    requires Ok(s) && Building(s) && o in s.bos && s.bos[o].block.Some? && !s.bos[o].dirty
    ensures s.bos[o].block.value in s.blocks && Building(ToHardware(s, o))
  {
    var b := s.bos[o].block.value;
    var block := s.blocks[b].(fenced := false, onHardware := true);
    assert (s.blocks - {b})[b := block] == s.blocks[b := block];
    JoinerBuilding(s, o, ToHardware(s, o), block);
  }

  lemma JoinerBuilding(s: St, o: Addr, s': St, block: Block)
    requires Linked(s.blocks, s.bos) && Building(s)
    requires o in s.bos && s.bos[o].block.Some? && !s.bos[o].dirty && block.onHardware && block.bo == Some(o)
    requires s'.blocks == s.blocks[s.bos[o].block.value := block]
    requires s'.bos == s.bos[o := s.bos[o].(validated := true)]
    ensures Building(s')
  {
  }

  lemma BatchStarts(s: St)
    requires Ok(s) && s.hw == [] && forall o :: o in s.bos ==> !s.bos[o].validated
    ensures Building(s)
  {
    forall b | b in s.blocks && s.blocks[b].onHardware
      ensures b in s.hw
    {
      ListMembers(s, b);
    }
  }

  // A fence emitted next would show every outstanding one as passed.
  ghost predicate NextPasses(s: St) {
    forall b :: b in s.blocks && s.blocks[b].fenced ==> Passes(Age(b, s.ticket), s.emitted + 1)
  }
}
