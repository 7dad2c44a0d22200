/**
 The GPU virtual-address manager of amdgpu_vamgr.c.

 The manager keeps a list of free holes in descending address order.  What it means is the set of
 free addresses; two hole lists that never touch and describe the same set are the same list, so
 every claim about lists follows from a claim about sets of addresses.
 */
module Holes {

  datatype Range = Range(offset: nat, size: nat) {
    function End(): nat { offset + size }
    ghost predicate Has(a: int) { offset <= a < End() }
  }

  // Descending, with at least one allocated address between neighbours.
  ghost predicate Separated(v: seq<Range>) {
    forall j, k :: 0 <= j < k < |v| ==> v[k].End() < v[j].offset
  }

  ghost predicate NonEmpty(v: seq<Range>) {
    forall k :: 0 <= k < |v| ==> v[k].size > 0
  }

  ghost predicate Free(v: seq<Range>, a: int) {
    exists k :: 0 <= k < |v| && v[k].Has(a)
  }

  ghost predicate FreeRange(v: seq<Range>, a: int, size: nat) {
    forall x :: a <= x < a + size ==> Free(v, x)
  }

  // [a, a + size) lies inside the hole h.
  ghost predicate Fits(h: Range, a: int, size: nat) {
    h.offset <= a && a + size <= h.End()
  }

  // A contiguous free range lies in a single hole, because holes never touch.
  lemma FreeRangeIsInOneHole(v: seq<Range>, a: int, size: nat)
    requires Separated(v) && size > 0
    ensures FreeRange(v, a, size) <==> exists k :: 0 <= k < |v| && Fits(v[k], a, size)
  {
    if FreeRange(v, a, size) {
      assert Free(v, a);
      var k :| 0 <= k < |v| && v[k].Has(a);
      assert !Free(v, v[k].End());
      assert Fits(v[k], a, size);
    }
    if k :| 0 <= k < |v| && Fits(v[k], a, size) {
      forall x | a <= x < a + size
        ensures Free(v, x)
      {
        assert v[k].Has(x);
      }
    }
  }

  ghost predicate SameFree(v: seq<Range>, w: seq<Range>) {
    forall a :: Free(v, a) <==> Free(w, a)
  }

  // The top hole of one list is the top hole of the other.
  lemma SameTopHole(v: seq<Range>, w: seq<Range>)
    requires Separated(v) && Separated(w) && NonEmpty(v) && NonEmpty(w) && SameFree(v, w) && v != []
    ensures w != [] && v[0] == w[0]
  {
    var k := Inside(v, w, 0);
    var j := Inside(w, v, k);
    assert j == 0 by {
      assert v[0].Has(v[0].offset) && v[j].Has(v[0].offset);
    }
    assert v[0] == w[k];
    if k > 0 {
      var i := Inside(w, v, 0);
      assert false;
    }
  }

  lemma Inside(v: seq<Range>, w: seq<Range>, k: nat) returns (j: nat)
    requires Separated(v) && Separated(w) && NonEmpty(v) && SameFree(v, w) && k < |v|
    ensures j < |w| && Fits(w[j], v[k].offset, v[k].size)
  {
    forall x | v[k].offset <= x < v[k].End()
      ensures Free(w, x)
    {
      assert v[k].Has(x) && Free(v, x);
    }
    FreeRangeIsInOneHole(w, v[k].offset, v[k].size);
    j :| 0 <= j < |w| && Fits(w[j], v[k].offset, v[k].size);
  }

  // Separated, non-empty hole lists are canonical: the free set determines the list.
  lemma {:induction false} Canonical(v: seq<Range>, w: seq<Range>)
    requires Separated(v) && Separated(w) && NonEmpty(v) && NonEmpty(w) && SameFree(v, w)
    ensures v == w
  {
    if v == [] {
      if w != [] { SameTopHole(w, v); }
    } else {
      SameTopHole(v, w);
      forall a
        ensures Free(v[1..], a) <==> Free(w[1..], a)
      {
        FreeBelowTop(v, a);
        FreeBelowTop(w, a);
      }
      Canonical(v[1..], w[1..]);
      assert v == [v[0]] + v[1..] && w == [w[0]] + w[1..];
    }
  }

  lemma FreeBelowTop(v: seq<Range>, a: int)
    requires Separated(v) && v != []
    ensures Free(v[1..], a) <==> Free(v, a) && a < v[0].offset
  {
  }

  // ----- cutting [s, e) out of hole k -----

  // What is left of hole k: the part above first, then the part below.
  function Remains(h: Range, s: nat, e: nat): seq<Range>
    requires h.offset <= s <= e <= h.End()
  {
    (if e < h.End() then [Range(e, h.End() - e)] else []) +
    (if h.offset < s then [Range(h.offset, s - h.offset)] else [])
  }

  function Cut(v: seq<Range>, k: nat, s: nat, e: nat): seq<Range>
    requires k < |v| && v[k].offset <= s <= e <= v[k].End()
  {
    v[..k] + Remains(v[k], s, e) + v[k + 1..]
  }

  lemma CutFrees(v: seq<Range>, k: nat, s: nat, e: nat, a: int)
    requires Separated(v) && k < |v| && v[k].offset <= s <= e <= v[k].End()
    ensures Free(Cut(v, k, s, e), a) <==> Free(v, a) && !(s <= a < e)
  {
    var r := Remains(v[k], s, e);
    FreeAround(v, k, 1, r, a);
    assert Free([v[k]], a) <==> [v[k]][0].Has(a);
    FreeAround(v, k, 1, [v[k]], a);
    assert v == v[..k] + [v[k]] + v[k + 1..];
    RemainsFrees(v[k], s, e, a);
    // an address of another hole is not in hole k
    if s <= a < e {
      assert v[k].Has(a);
      assert !Free(v[..k], a) && !Free(v[k + 1..], a);
    }
  }

  lemma RemainsFrees(h: Range, s: nat, e: nat, a: int)
    requires h.offset <= s <= e <= h.End()
    ensures Free(Remains(h, s, e), a) <==> h.Has(a) && !(s <= a < e)
  {
    var r := Remains(h, s, e);
    if h.Has(a) && !(s <= a < e) {
      assert r[if a >= e then 0 else |r| - 1].Has(a);
    }
  }

  // Replacing n holes from k on by the list r.
  lemma FreeAround(v: seq<Range>, k: nat, n: nat, r: seq<Range>, a: int)
    requires k + n <= |v|
    ensures Free(v[..k] + r + v[k + n..], a) <==> Free(v[..k], a) || Free(r, a) || Free(v[k + n..], a)
  {
    FreeConcat(v[..k] + r, v[k + n..], a);
    FreeConcat(v[..k], r, a);
  }

  lemma FreeConcat(v: seq<Range>, w: seq<Range>, a: int)
    ensures Free(v + w, a) <==> Free(v, a) || Free(w, a)
  {
    if k :| 0 <= k < |v| && v[k].Has(a) { assert (v + w)[k].Has(a); }
    if k :| 0 <= k < |w| && w[k].Has(a) { assert (v + w)[|v| + k].Has(a); }
    if k :| 0 <= k < |v + w| && (v + w)[k].Has(a) {
      if k < |v| { assert v[k].Has(a); } else { assert w[k - |v|].Has(a); }
    }
  }

  // The holes stay apart unless an empty range is cut out of the inside of a hole.
  lemma CutSeparates(v: seq<Range>, k: nat, s: nat, e: nat)
    requires Separated(v) && k < |v| && v[k].offset <= s <= e <= v[k].End()
    ensures Separated(Cut(v, k, s, e)) <==> !(s == e && v[k].offset < s < v[k].End())
    ensures NonEmpty(v) ==> NonEmpty(Cut(v, k, s, e))
  {
    var w, r := Cut(v, k, s, e), Remains(v[k], s, e);
    assert forall i :: 0 <= i < |w| ==>
      w[i] == if i < k then v[i] else if i < k + |r| then r[i - k] else v[i - |r| + 1];
    if s == e && v[k].offset < s < v[k].End() {
      assert w[k + 1].End() == w[k].offset;
    }
  }

  // ----- giving [va, va + size) back -----

  // Holes before i lie at or above va, the others below it.
  ghost predicate SplitsAt(v: seq<Range>, va: nat, i: nat) {
    && i <= |v|
    && (forall k :: 0 <= k < i ==> v[k].offset >= va)
    && (forall k :: i <= k < |v| ==> v[k].offset < va)
  }

  // The holes that the freed range joins are from .. to - 1: at most the one above and the one below.
  function JoinFrom(v: seq<Range>, i: nat, end: nat): nat
    requires i <= |v|
  {
    if i > 0 && v[i - 1].offset == end then i - 1 else i
  }

  function JoinTo(v: seq<Range>, i: nat, va: nat): nat
    requires i <= |v|
  {
    if i < |v| && v[i].End() == va then i + 1 else i
  }

  // Grow the upper hole, the lower hole, join both, or add a hole of its own.
  function Joined(v: seq<Range>, i: nat, va: nat, size: nat): Range
    requires i <= |v|
  {
    var low := if JoinTo(v, i, va) > i then v[i].offset else va;
    var high := if JoinFrom(v, i, va + size) < i then v[i - 1].End() else va + size;
    Range(low, if low <= high then high - low else 0)
  }

  function Freed(v: seq<Range>, i: nat, va: nat, size: nat): seq<Range>
    requires i <= |v|
  {
    v[..JoinFrom(v, i, va + size)] + [Joined(v, i, va, size)] + v[JoinTo(v, i, va)..]
  }

  ghost predicate NoneFree(v: seq<Range>, va: int, size: nat) {
    forall a :: va <= a < va + size ==> !Free(v, a)
  }

  lemma HolesKeepClear(v: seq<Range>, i: nat, va: nat, size: nat)
    requires Separated(v) && NonEmpty(v) && SplitsAt(v, va, i) && size > 0 && NoneFree(v, va, size)
    ensures forall k :: 0 <= k < i ==> va + size <= v[k].offset
    ensures forall k :: i <= k < |v| ==> v[k].End() <= va
  {
    forall k | 0 <= k < i
      ensures va + size <= v[k].offset
    {
      assert v[k].Has(v[k].offset) && Free(v, v[k].offset);
    }
    forall k | i <= k < |v|
      ensures v[k].End() <= va
    {
      assert v[k].Has(va) ==> Free(v, va);
    }
  }

  lemma FreedSeparates(v: seq<Range>, i: nat, va: nat, size: nat)
    requires Separated(v) && NonEmpty(v) && SplitsAt(v, va, i) && size > 0 && NoneFree(v, va, size)
    ensures Separated(Freed(v, i, va, size)) && NonEmpty(Freed(v, i, va, size))
  {
    HolesKeepClear(v, i, va, size);
    SeparatedAround(v, JoinFrom(v, i, va + size), JoinTo(v, i, va), Joined(v, i, va, size));
  }

  lemma SeparatedAround(v: seq<Range>, from: nat, to: nat, r: Range)
    requires Separated(v) && NonEmpty(v) && r.size > 0 && from <= to <= |v|
    requires forall k :: 0 <= k < from ==> r.End() < v[k].offset
    requires forall k :: to <= k < |v| ==> v[k].End() < r.offset
    ensures Separated(v[..from] + [r] + v[to..]) && NonEmpty(v[..from] + [r] + v[to..])
  {
  }

  lemma FreedFrees(v: seq<Range>, i: nat, va: nat, size: nat, a: int)
    requires Separated(v) && NonEmpty(v) && SplitsAt(v, va, i) && size > 0 && NoneFree(v, va, size)
    ensures Free(Freed(v, i, va, size), a) <==> Free(v, a) || va <= a < va + size
  {
    var from, to, r := JoinFrom(v, i, va + size), JoinTo(v, i, va), [Joined(v, i, va, size)];
    FreeAround(v, from, to - from, r, a);
    JoinedFrees(v, i, va, size, a);
    assert Free(r, a) <==> r[0].Has(a);
    Sandwich(v, from, to, a);
  }

  lemma Sandwich(v: seq<Range>, from: nat, to: nat, a: int)
    requires from <= to <= |v|
    ensures Free(v, a) <==> Free(v[..from], a) || Free(v[from..to], a) || Free(v[to..], a)
  {
    FreeAround(v, from, to - from, v[from..to], a);
    assert v == v[..from] + v[from..to] + v[to..];
  }

  lemma JoinedFrees(v: seq<Range>, i: nat, va: nat, size: nat, a: int)
    requires Separated(v) && NonEmpty(v) && SplitsAt(v, va, i) && size > 0 && NoneFree(v, va, size)
    ensures Joined(v, i, va, size).Has(a) <==>
            Free(v[JoinFrom(v, i, va + size)..JoinTo(v, i, va)], a) || va <= a < va + size
  {
  }
}

/** 64-bit words, the ALIGN macro and the rounding steps of the search. */
module Alignment {
  const TWO_64: nat := 0x1_0000_0000_0000_0000

  function Add64(a: nat, b: nat): nat {
    (a + b) % TWO_64
  }

  function Sub64(a: nat, b: nat): nat {
    (a - b) % TWO_64
  }

  function RoundDown(x: nat, alignment: nat): int
    requires alignment > 0
  {
    x - x % alignment
  }

  // ALIGN(value, alignment) for a power-of-two alignment, where masking with ~(alignment - 1)
  // drops the remainder.
  function Align64(value: nat, alignment: nat): int
    requires alignment > 0
  {
    RoundDown(Add64(value, alignment - 1), alignment)
  }

  lemma WordSum(a: nat, b: nat)
    requires a < TWO_64 && b < TWO_64
    ensures Add64(a, b) == if a + b < TWO_64 then a + b else a + b - TWO_64
  {
  }

  lemma WordDifference(a: nat, b: nat)
    requires a < TWO_64 && b < TWO_64
    ensures Sub64(a, b) == if b <= a then a - b else a - b + TWO_64
  {
  }

  ghost predicate Multiple(a: int, alignment: nat)
    requires alignment > 0
  {
    a % alignment == 0
  }

  ghost function RoundUp(x: nat, alignment: nat): nat
    requires alignment > 0
  {
    if x % alignment == 0 then x else x + alignment - x % alignment
  }

  lemma Times(d: nat, p: int, q: int)
    requires p <= q
    ensures d * p <= d * q
    ensures d * (p + 1) == d * p + d
  {
  }

  lemma MultiplesAreApart(a: int, b: int, alignment: nat)
    requires alignment > 0 && Multiple(a, alignment) && Multiple(b, alignment) && a < b
    ensures a + alignment <= b
  {
    var p, q := a / alignment, b / alignment;
    assert a == alignment * p && b == alignment * q;
    if q <= p { Times(alignment, q, p); }
    Times(alignment, p + 1, q);
    Times(alignment, p, q);
  }

  lemma DropRemainder(x: nat, alignment: nat)
    requires alignment > 0
    ensures Multiple(RoundDown(x, alignment), alignment)
    ensures Multiple(RoundDown(x, alignment) + alignment, alignment)
  {
    var p := x / alignment;
    assert RoundDown(x, alignment) == alignment * p;
    Times(alignment, p, p);
    MultipleOf(alignment, p);
    MultipleOf(alignment, p + 1);
  }

  lemma MultipleOf(alignment: nat, p: nat)
    requires alignment > 0
    ensures (alignment * p) % alignment == 0
  {
    if p > 0 {
      MultipleOf(alignment, p - 1);
      assert alignment * p == alignment * (p - 1) + alignment;
      AddModulus(alignment * (p - 1), alignment);
    }
  }

  lemma AddModulus(x: nat, alignment: nat)
    requires alignment > 0
    ensures (x + alignment) % alignment == x % alignment
  {
    var p, r := x / alignment, x % alignment;
    Times(alignment, p, p);
    QuotientUnique(x + alignment, alignment, p + 1, r);
  }

  lemma QuotientUnique(x: nat, d: nat, q: nat, r: nat)
    requires 0 <= r < d && x == d * q + r
    ensures x % d == r
  {
    var q' := x / d;
    assert x == d * q' + x % d;
    Times(d, q, q);
    Times(d, q', q');
    if q' > q { Times(d, q + 1, q'); }
    if q' < q { Times(d, q' + 1, q); }
  }

  // The least multiple at or above x ...
  lemma RoundUpIsLeast(x: nat, alignment: nat, a: int)
    requires alignment > 0
    ensures Multiple(RoundUp(x, alignment), alignment) && x <= RoundUp(x, alignment) < x + alignment
    ensures a >= x && Multiple(a, alignment) ==> a >= RoundUp(x, alignment)
  {
    DropRemainder(x, alignment);
    if a >= x && Multiple(a, alignment) && x % alignment != 0 {
      MultiplesAreApart(x - x % alignment, a, alignment);
    }
  }

  // ... and the greatest at or below it.
  lemma RoundDownIsGreatest(x: nat, alignment: nat, a: int)
    requires alignment > 0
    ensures Multiple(RoundDown(x, alignment), alignment) && x - alignment < RoundDown(x, alignment) <= x
    ensures a <= x && Multiple(a, alignment) ==> a <= RoundDown(x, alignment)
  {
    DropRemainder(x, alignment);
    if a <= x && Multiple(a, alignment) && a > RoundDown(x, alignment) {
      MultiplesAreApart(RoundDown(x, alignment), a, alignment);
    }
  }

  // The macro rounds up exactly as long as the padded value fits in 64 bits; beyond that it
  // silently returns something smaller than it was given.
  lemma AlignRoundsUpExactly(value: nat, alignment: nat)
    requires value < TWO_64 && 0 < alignment < TWO_64
    ensures Align64(value, alignment) == RoundUp(value, alignment) <==> value + alignment <= TWO_64
    ensures value + alignment > TWO_64 ==> Align64(value, alignment) < value
  {
    WordSum(value, alignment - 1);
    if value + alignment <= TWO_64 {
      RoundDownOfPadded(value, alignment);
    } else {
      RoundDownIsGreatest(value + alignment - 1 - TWO_64, alignment, 0);
      RoundUpIsLeast(value, alignment, 0);
    }
  }

  // A power of two divides 2^64; rounding to one twice is rounding once.
  lemma AlignTwice(value: nat, alignment: nat)
    requires 0 < alignment < TWO_64 && TWO_64 % alignment == 0
    ensures Align64(value, alignment) >= 0
    ensures Align64(Align64(value, alignment), alignment) == Align64(value, alignment)
  {
    var x := Add64(value, alignment - 1);
    RoundDownIsGreatest(x, alignment, 0);
    var y := RoundDown(x, alignment);
    MultiplesAreApart(y, TWO_64, alignment);
    WordSum(y, alignment - 1);
    RoundDownIsGreatest(y + alignment - 1, alignment, y);
    SameMultiple(y, alignment, y, RoundDown(y + alignment - 1, alignment));
  }

  lemma RoundDownOfPadded(value: nat, alignment: nat)
    requires alignment > 0
    ensures RoundDown(value + alignment - 1, alignment) == RoundUp(value, alignment)
  {
    RoundUpIsLeast(value, alignment, 0);
    RoundDownIsGreatest(value + alignment - 1, alignment, 0);
    SameMultiple(value, alignment, RoundUp(value, alignment), RoundDown(value + alignment - 1, alignment));
  }

  // An interval as long as the alignment holds one multiple.
  lemma SameMultiple(x: nat, alignment: nat, a: int, b: int)
    requires alignment > 0 && Multiple(a, alignment) && Multiple(b, alignment)
    requires x <= a < x + alignment && x <= b < x + alignment
    ensures a == b
  {
    if a < b { MultiplesAreApart(a, b, alignment); }
    if b < a { MultiplesAreApart(b, a, alignment); }
  }
}

/**
 The search for room: what find_va tests in 64-bit words at each hole, when the test is right, and
 what the first hole to pass it is worth.
 */
module VaSearch {
  import opened Holes
  import opened Alignment
  import opened Options

  // What is searched for.  A base of 0 leaves the choice to the search.
  datatype Request = Request(size: nat, alignment: nat, base: nat, fromTop: bool)

  // The lowest fit: the hole's start rounded up, if enough is left after it.
  lemma LowestFit(h: Range, size: nat, alignment: nat)
    requires size > 0 && alignment > 0
    ensures var offset := RoundUp(h.offset, alignment);
      && (Fits(h, offset, size) <==> offset < h.End() && size <= h.End() - offset)
      && forall a :: Fits(h, a, size) && Multiple(a, alignment) ==> offset <= a && Fits(h, offset, size)
  {
    RoundUpIsLeast(h.offset, alignment, 0);
    forall a | Fits(h, a, size) && Multiple(a, alignment)
      ensures RoundUp(h.offset, alignment) <= a
    {
      RoundUpIsLeast(h.offset, alignment, a);
    }
  }

  // The highest fit: the latest start rounded down, if that is still in the hole.
  lemma HighestFit(h: Range, size: nat, alignment: nat)
    requires alignment > 0 && size <= h.size
    ensures var offset := RoundDown(h.End() - size, alignment);
      && (Fits(h, offset, size) <==> offset >= h.offset)
      && forall a :: Fits(h, a, size) && Multiple(a, alignment) ==> a <= offset && Fits(h, offset, size)
  {
    RoundDownIsGreatest(h.End() - size, alignment, 0);
    forall a | Fits(h, a, size) && Multiple(a, alignment)
      ensures a <= RoundDown(h.End() - size, alignment)
    {
      RoundDownIsGreatest(h.End() - size, alignment, a);
    }
  }

  // a is a place the request could go in hole h.
  ghost predicate Candidate(h: Range, a: int, q: Request)
    requires q.alignment > 0
  {
    && Fits(h, a, q.size)
    && (if q.base != 0 then a == q.base else Multiple(a, q.alignment))
  }

  // Taking the range leaves something of the hole on both sides.
  predicate Splits(h: Range, va: nat, size: nat) {
    h.offset < va && va + size < h.End()
  }

  // ----- the tests, in 64-bit words -----

  predicate Words(h: Range, q: Request) {
    h.End() < TWO_64 && q.size < TWO_64 && 0 < q.alignment < TWO_64 && q.base < TWO_64
  }

  // A required base, whichever way the search goes.
  predicate BaseTest(h: Range, size: nat, base: nat) {
    base >= h.offset && Add64(base, size) <= Add64(h.offset, h.size)
  }

  // The start of a hole, rounded up.
  function WordUp(offset: nat, alignment: nat): nat
    requires alignment > 0
  {
    Add64(offset, if offset % alignment != 0 then alignment - offset % alignment else 0)
  }

  predicate BottomTest(h: Range, size: nat, alignment: nat)
    requires alignment > 0
  {
    var end, offset := Add64(h.offset, h.size), WordUp(h.offset, alignment);
    offset < end && size <= Sub64(end, offset)
  }

  // The latest start, rounded down.
  function WordDown(h: Range, size: nat, alignment: nat): nat
    requires alignment > 0
  {
    var limit := Sub64(Add64(h.offset, h.size), size);
    limit - limit % alignment
  }

  predicate TopTest(h: Range, size: nat, alignment: nat)
    requires alignment > 0
  {
    size <= h.size && WordDown(h, size, alignment) >= h.offset
  }

  // The address a hole offers, if it passes.
  function Offer(h: Range, q: Request): Option<nat>
    requires q.alignment > 0
  {
    if q.base != 0 then
      if BaseTest(h, q.size, q.base) then Some(q.base) else None
    else if q.fromTop then
      if TopTest(h, q.size, q.alignment) then Some(WordDown(h, q.size, q.alignment)) else None
    else
      if BottomTest(h, q.size, q.alignment) then Some(WordUp(h.offset, q.alignment)) else None
  }

  // The test of a required base is right unless the end of the range wraps and the wrapped end is
  // not above the hole's.
  lemma BaseTestIsExact(h: Range, size: nat, base: nat)
    requires h.End() < TWO_64 && size < TWO_64 && base < TWO_64
    ensures (BaseTest(h, size, base) <==> Fits(h, base, size)) <==> BaseIsSound(h, size, base)
  {
    WordSum(base, size);
  }

  predicate BaseIsSound(h: Range, size: nat, base: nat) {
    base + size < TWO_64 || h.offset > base || h.End() < base + size - TWO_64
  }

  // The test from the bottom is right unless the rounded start wraps and there is room for the
  // request between the wrapped start and the hole's end.
  lemma BottomTestIsExact(h: Range, size: nat, alignment: nat)
    requires h.End() < TWO_64 && 0 < size < TWO_64 && 0 < alignment < TWO_64
    ensures (BottomTest(h, size, alignment) <==> Fits(h, RoundUp(h.offset, alignment), size))
            <==> BottomIsSound(h, size, alignment)
  {
    StartInWords(h, alignment);
    BottomTestInWords(h, size, alignment);
  }

  // Whatever the rounding did, the test asks whether the range from the computed start fits below
  // the hole's end.
  lemma BottomTestInWords(h: Range, size: nat, alignment: nat)
    requires h.End() < TWO_64 && 0 < alignment
    ensures var o := WordUp(h.offset, alignment); BottomTest(h, size, alignment) <==> o < h.End() && o + size <= h.End()
  {
    WordSum(h.offset, h.size);
    if WordUp(h.offset, alignment) < h.End() { WordDifference(h.End(), WordUp(h.offset, alignment)); }
  }

  ghost predicate BottomIsSound(h: Range, size: nat, alignment: nat)
    requires alignment > 0
  {
    var o := RoundUp(h.offset, alignment);
    o < TWO_64 || o - TWO_64 >= h.End() || size > h.End() - (o - TWO_64)
  }

  lemma StartInWords(h: Range, alignment: nat)
    requires h.End() < TWO_64 && 0 < alignment < TWO_64
    ensures var o := RoundUp(h.offset, alignment);
      && h.offset <= o < h.offset + alignment
      && WordUp(h.offset, alignment) == if o < TWO_64 then o else o - TWO_64
  {
    RoundUpIsLeast(h.offset, alignment, 0);
    WordSum(h.offset, RoundUp(h.offset, alignment) - h.offset);
  }

  // The test from the top never goes wrong.
  lemma TopTestIsExact(h: Range, size: nat, alignment: nat)
    requires h.End() < TWO_64 && size <= h.size && 0 < alignment
    ensures WordDown(h, size, alignment) == RoundDown(h.End() - size, alignment)
    ensures TopTest(h, size, alignment) <==> Fits(h, RoundDown(h.End() - size, alignment), size)
  {
    WordSum(h.offset, h.size);
    WordDifference(h.End(), size);
    HighestFit(h, size, alignment);
  }

  // When a hole's test is to be trusted.
  ghost predicate Sound(h: Range, q: Request)
    requires q.alignment > 0
  {
    if q.base != 0 then BaseIsSound(h, q.size, q.base) else q.fromTop || BottomIsSound(h, q.size, q.alignment)
  }

  // An offer is inside its hole exactly if the test is to be trusted ...
  lemma OfferIsRight(h: Range, q: Request)
    requires Words(h, q)
    ensures var o := Offer(h, q); (o.Some? ==> Fits(h, o.value, q.size)) <==> Sound(h, q)
  {
    if q.base != 0 {
      BaseTestIsExact(h, q.size, q.base);
    } else if q.fromTop {
      if q.size <= h.size { TopTestIsExact(h, q.size, q.alignment); }
    } else {
      StartInWords(h, q.alignment);
    }
  }

  // ... then it is the best the hole has ...
  lemma OfferIsBest(h: Range, q: Request, a: int)
    requires Words(h, q) && q.size > 0
    requires Offer(h, q).Some? && Sound(h, q)
    ensures Candidate(h, Offer(h, q).value, q)
    ensures Candidate(h, a, q) ==> if q.fromTop then a <= Offer(h, q).value else Offer(h, q).value <= a
  {
    OfferIsRight(h, q);
    if q.base == 0 {
      if q.fromTop {
        TopTestIsExact(h, q.size, q.alignment);
        RoundDownIsGreatest(h.End() - q.size, q.alignment, a);
      } else {
        StartInWords(h, q.alignment);
        RoundUpIsLeast(h.offset, q.alignment, a);
      }
    }
  }

  // ... and a hole that offers nothing has nothing, trusted or not.
  lemma NoOfferNoCandidate(h: Range, q: Request, a: int)
    requires Words(h, q) && q.size > 0 && Offer(h, q) == None
    ensures !Candidate(h, a, q)
  {
    if q.base != 0 {
      WordSum(q.base, q.size);
    } else if Fits(h, a, q.size) && Multiple(a, q.alignment) {
      if q.fromTop {
        PassesTopTest(h, a, q.size, q.alignment);
      } else {
        PassesBottomTest(h, a, q.size, q.alignment);
      }
    }
  }

  lemma PassesTopTest(h: Range, a: int, size: nat, alignment: nat)
    requires h.End() < TWO_64 && 0 < alignment && Fits(h, a, size) && Multiple(a, alignment)
    ensures TopTest(h, size, alignment)
  {
    TopTestIsExact(h, size, alignment);
    RoundDownIsGreatest(h.End() - size, alignment, a);
  }

  lemma PassesBottomTest(h: Range, a: int, size: nat, alignment: nat)
    requires h.End() < TWO_64 && 0 < alignment < TWO_64 && size > 0
    requires Fits(h, a, size) && Multiple(a, alignment)
    ensures BottomTest(h, size, alignment)
  {
    StartInWords(h, alignment);
    BottomTestInWords(h, size, alignment);
    RoundUpIsLeast(h.offset, alignment, a);
  }

  // ----- the search through all holes -----

  // Hole k is the first to offer anything, searching upwards or downwards in addresses; -1 if none is.
  ghost predicate Chosen(v: seq<Range>, k: int, q: Request)
    requires q.alignment > 0
  {
    && -1 <= k < |v|
    && (k >= 0 ==> Offer(v[k], q).Some?)
    && forall j :: 0 <= j < |v| && (k == -1 || (if q.fromTop then j < k else j > k)) ==> Offer(v[j], q) == None
  }

  ghost predicate AllWords(v: seq<Range>, q: Request) {
    && q.size < TWO_64 && 0 < q.alignment < TWO_64 && q.base < TWO_64
    && forall k :: 0 <= k < |v| ==> v[k].End() < TWO_64
  }

  ghost predicate Admissible(v: seq<Range>, a: int, q: Request)
    requires q.alignment > 0
  {
    && FreeRange(v, a, q.size)
    && (if q.base != 0 then a == q.base else Multiple(a, q.alignment))
  }

  // The request may go at va, and no admissible address is lower (higher, from the top).
  ghost predicate Best(v: seq<Range>, va: int, q: Request)
    requires q.alignment > 0
  {
    && Admissible(v, va, q)
    && forall a :: Admissible(v, a, q) ==> if q.fromTop then a <= va else va <= a
  }

  lemma CandidatesAreAdmissible(v: seq<Range>, q: Request)
    requires Separated(v) && q.size > 0 && q.alignment > 0
    ensures forall a :: Admissible(v, a, q) <==> exists k :: 0 <= k < |v| && Candidate(v[k], a, q)
  {
    forall a
      ensures Admissible(v, a, q) <==> exists k :: 0 <= k < |v| && Candidate(v[k], a, q)
    {
      FreeRangeIsInOneHole(v, a, q.size);
      if k :| 0 <= k < |v| && Fits(v[k], a, q.size) {
        assert Candidate(v[k], a, q) <==> Admissible(v, a, q);
      }
    }
  }

  // If no hole offers anything, no address is admissible.
  lemma NoneChosen(v: seq<Range>, q: Request)
    requires Separated(v) && AllWords(v, q) && q.size > 0 && Chosen(v, -1, q)
    ensures forall a :: !Admissible(v, a, q)
  {
    CandidatesAreAdmissible(v, q);
    forall j, a | 0 <= j < |v|
      ensures !Candidate(v[j], a, q)
    {
      NoOfferNoCandidate(v[j], q, a);
    }
  }

  // The address chosen is the best there is if and only if the test of the hole chosen is to be
  // trusted; otherwise it is not even admissible.
  lemma ChosenIsBestIff(v: seq<Range>, k: int, q: Request)
    requires Separated(v) && AllWords(v, q) && q.size > 0 && k >= 0 && Chosen(v, k, q)
    ensures Best(v, Offer(v[k], q).value, q) <==> Sound(v[k], q)
    ensures Admissible(v, Offer(v[k], q).value, q) <==> Sound(v[k], q)
  {
    var va := Offer(v[k], q).value;
    CandidatesAreAdmissible(v, q);
    if Sound(v[k], q) {
      OfferIsBest(v[k], q, va);
      assert Candidate(v[k], va, q);
      forall a | Admissible(v, a, q)
        ensures if q.fromTop then a <= va else va <= a
      {
        var j :| 0 <= j < |v| && Candidate(v[j], a, q);
        NotEarlier(v, k, j, a, q);
        OfferIsBest(v[k], q, a);
      }
    } else {
      forall j | 0 <= j < |v|
        ensures !Candidate(v[j], va, q)
      {
        UnsoundIsNoCandidate(v, k, j, q);
      }
    }
  }

  // What a hole offers wrongly is in no hole: it reaches past 2^64, or lies below the hole, where
  // only holes that were tried before could have it.
  lemma UnsoundIsNoCandidate(v: seq<Range>, k: int, j: int, q: Request)
    requires Separated(v) && AllWords(v, q) && q.size > 0 && k >= 0 && Chosen(v, k, q)
    requires 0 <= j < |v| && !Sound(v[k], q)
    ensures !Candidate(v[j], Offer(v[k], q).value, q)
  {
    if q.base == 0 && Candidate(v[j], Offer(v[k], q).value, q) {
      NotEarlier(v, k, j, Offer(v[k], q).value, q);
      StartInWords(v[k], q.alignment);
    }
  }

  // Holes that were tried before have no candidates.
  lemma NotEarlier(v: seq<Range>, k: int, j: int, a: int, q: Request)
    requires AllWords(v, q) && q.size > 0 && k >= 0 && Chosen(v, k, q)
    requires 0 <= j < |v| && Candidate(v[j], a, q)
    ensures if q.fromTop then j >= k else j <= k
  {
    if (q.fromTop && j < k) || (!q.fromTop && j > k) {
      NoOfferNoCandidate(v[j], q, a);
    }
  }

  // ----- what subtract_hole leaves, in 64-bit words -----

  function RemainsInWords(h: Range, s: nat, e: nat): seq<Range> {
    var d := Sub64(e, h.offset);
    (if d < h.size then [Range(e, h.size - d)] else []) +
    (if h.offset < s then [Range(h.offset, s - h.offset)] else [])
  }

  function CutInWords(v: seq<Range>, k: nat, s: nat, e: nat): seq<Range>
    requires k < |v|
  {
    v[..k] + RemainsInWords(v[k], s, e) + v[k + 1..]
  }

  // As an insertion, an update or a deletion.
  lemma CutInWordsIsUpdate(v: seq<Range>, k: nat, s: nat, e: nat)
    requires k < |v|
    ensures var h, d := v[k], Sub64(e, v[k].offset);
      CutInWords(v, k, s, e) ==
        if s > h.offset && d < h.size then
          (v[..k + 1] + [Range(h.offset, s - h.offset)] + v[k + 1..])[k := Range(e, h.size - d)]
        else if s > h.offset then v[k := Range(h.offset, s - h.offset)]
        else if d < h.size then v[k := Range(e, h.size - d)]
        else v[..k] + v[k + 1..]
  {
    assert v == v[..k] + [v[k]] + v[k + 1..];
  }

  // A cut inside the hole.
  lemma CutInWordsIsCut(v: seq<Range>, k: nat, s: nat, e: nat)
    requires k < |v| && v[k].offset <= s <= e <= v[k].End() < TWO_64
    ensures CutInWords(v, k, s, e) == Cut(v, k, s, e)
    ensures |RemainsInWords(v[k], s, e)| == 2 <==> Splits(v[k], s, e - s)
  {
    WordDifference(e, v[k].offset);
  }
}

module VaManager {
  import opened Holes
  import opened Alignment
  import opened Options
  import opened VaSearch

  const EINVAL := 22
  const ENOMEM := 12
  const AMDGPU_INVALID_VA_ADDRESS: nat := 0xffff_ffff_ffff_ffff

  class Hole {
    var offset: nat
    var size: nat

    constructor (offset: nat, size: nat)
      ensures this.offset == offset && this.size == size
    {
      this.offset, this.size := offset, size;
    }
  }

  ghost predicate Distinct(holes: seq<Hole>) {
    forall j, k :: 0 <= j < k < |holes| ==> holes[j] != holes[k]
  }

  // Address a was handed out and not yet given back.
  ghost predicate Taken(live: set<Range>, a: int) {
    exists r :: r in live && r.Has(a)
  }

  // Every managed address is free or in one live range, never both, and nothing else is.
  ghost predicate Partition(v: seq<Range>, live: set<Range>, start: nat, end: nat) {
    && (forall a :: start <= a < end <==> Free(v, a) || Taken(live, a))
    && (forall a :: !(Free(v, a) && Taken(live, a)))
    && (forall r :: r in live ==> r.size > 0)
    && (forall r, q :: r in live && q in live && r != q ==> r.End() <= q.offset || q.End() <= r.offset)
  }

  ghost predicate Within(v: seq<Range>, start: nat, end: nat) {
    forall k :: 0 <= k < |v| ==> start <= v[k].offset && v[k].End() <= end
  }

  // What every run keeps.  (A manager created with an empty range starts with an empty hole.)
  ghost predicate Consistent(v: seq<Range>, live: set<Range>, start: nat, end: nat) {
    && Separated(v) && Within(v, start, end)
    && (start < end ==> NonEmpty(v))
    && Partition(v, live, start, end)
  }

  // What subtracting a range of a hole answers.
  function Answer(h: Range, va: nat, size: nat, callocOk: bool): int {
    if !callocOk && |RemainsInWords(h, va, Add64(va, size))| == 2 then -ENOMEM else 0
  }

  // What find_va's choice is worth.  With no hole chosen nothing was admissible; otherwise the address
  // is the best there is, and is no longer free or needed memory that was missing, exactly if the
  // chosen hole's test was right.  If it was not, the address is not even admissible.
  ghost predicate Outcome(v: seq<Range>, k: int, q: Request, va: nat, ret: int, callocOk: bool, w: seq<Range>)
    requires q.alignment > 0 && k < |v|
  {
    if k < 0 then forall a :: !Admissible(v, a, q)
    else
      && (Best(v, va, q) <==> Sound(v[k], q))
      && (Admissible(v, va, q) <==> Sound(v[k], q))
      && (Sound(v[k], q) ==>
            if ret == 0 then Shrinks(v, w, va, q.size) else !callocOk && Splits(v[k], va, q.size))
  }

  class VaManager {
    const start: nat
    const vaMax: nat
    const vaAlignment: nat
    var holes: seq<Hole>
    ghost var live: set<Range>

    ghost var view: seq<Range>     // the holes' fields, in list order

    // The list really holds what `view` says.
    ghost predicate Matches()
      reads this`holes, this`view, holes
    {
      && Distinct(holes) && |view| == |holes|
      && forall k :: 0 <= k < |holes| ==> view[k] == Range(holes[k].offset, holes[k].size)
    }

    ghost predicate Valid()
      reads this, holes
    {
      && start <= vaMax < TWO_64 && 0 < vaAlignment < TWO_64
      && Matches()
      && Consistent(view, live, start, vaMax)
    }

    // The request's size and alignment as the manager uses them.
    ghost function Rounded(size: nat): (r: nat)
      requires 0 < vaAlignment < TWO_64
      ensures size < TWO_64 ==> (r == RoundUp(size, vaAlignment) <==> size + vaAlignment <= TWO_64)
    {
      RoundDownIsGreatest(Add64(size, vaAlignment - 1), vaAlignment, 0);
      if size < TWO_64 then AlignRoundsUpExactly(size, vaAlignment); Align64(size, vaAlignment)
      else Align64(size, vaAlignment)
    }

    // The larger of the two.
    ghost function Stricter(alignment: nat): (r: nat)
      ensures r >= alignment && r >= vaAlignment && (r == alignment || r == vaAlignment)
    {
      if alignment > vaAlignment then alignment else vaAlignment
    }

    // Every live range has a size that ALIGN leaves alone.
    ghost predicate LiveSizes()
      requires 0 < vaAlignment < TWO_64
      reads this`live
    {
      forall r :: r in live ==> Rounded(r.size) == r.size
    }

    ghost function Asked(size: nat, alignment: nat, base: nat, fromTop: bool): Request
      requires 0 < vaAlignment < TWO_64
    {
      Request(Rounded(size), Stricter(alignment), base, fromTop)
    }

    // amdgpu_vamgr_init
    constructor (start: nat, max: nat, alignment: nat)
      requires start <= max < TWO_64 && 0 < alignment < TWO_64
      ensures Valid() && live == {} && view == [Range(start, max - start)]
      ensures this.LiveSizes() && this.start == start && vaMax == max && vaAlignment == alignment
      ensures fresh(holes)
    {
      this.start, vaMax, vaAlignment, live := start, max, alignment, {};
      var n := new Hole(start, max - start);
      holes, view := [n], [Range(start, max - start)];
      new;
      assert forall a :: start <= a < max <==> view[0].Has(a);
    }

    // What the search asks of one hole, from the bottom: is there room at the required base, or
    // at the hole's start rounded up to the alignment?
    static method OfferLow(hole: Hole, size: nat, alignment: nat, base: nat) returns (found: bool, offset: nat)
      requires alignment > 0
      ensures Offer(Range(hole.offset, hole.size), Request(size, alignment, base, false)) ==
              if found then Some(offset) else None
    {
      if base != 0 {
        if hole.offset > base || Add64(hole.offset, hole.size) < Add64(base, size) {
          return false, 0;
        }
        offset := base;
      } else {
        var waste := hole.offset % alignment;
        waste := if waste != 0 then alignment - waste else 0;
        offset := Add64(hole.offset, waste);
        if offset >= Add64(hole.offset, hole.size) || size > Sub64(Add64(hole.offset, hole.size), offset) {
          return false, 0;
        }
      }
      found := true;
    }

    // ... and from the top: at the latest start rounded down.
    static method OfferHigh(hole: Hole, size: nat, alignment: nat, base: nat) returns (found: bool, offset: nat)
      requires alignment > 0
      ensures Offer(Range(hole.offset, hole.size), Request(size, alignment, base, true)) ==
              if found then Some(offset) else None
    {
      if base != 0 {
        if hole.offset > base || Add64(hole.offset, hole.size) < Add64(base, size) {
          return false, 0;
        }
        offset := base;
      } else {
        if size > hole.size {
          return false, 0;
        }
        offset := Sub64(Add64(hole.offset, hole.size), size);
        RoundDownIsGreatest(offset, alignment, 0);
        offset := offset - offset % alignment;
        if offset < hole.offset {
          return false, 0;
        }
      }
      found := true;
    }

    // amdgpu_vamgr_find_va walks the list backwards to search from the bottom: lowest hole first.
    method SearchFromBottom(size: nat, alignment: nat, base: nat) returns (k: int, offset: nat)
      requires Matches() && alignment > 0
      ensures Chosen(view, k, Request(size, alignment, base, false))
      ensures k >= 0 ==> Offer(view[k], Request(size, alignment, base, false)) == Some(offset)
    {
      k := |holes| - 1;
      while k >= 0
        invariant -1 <= k < |holes|
        invariant forall j :: k < j < |holes| ==> Offer(view[j], Request(size, alignment, base, false)) == None
      {
        var found;
        found, offset := OfferLow(holes[k], size, alignment, base);
        if found {
          return;
        }
        k := k - 1;
      }
      offset := 0;
    }

    // ... and forwards to search from the top: highest hole first.
    method SearchFromTop(size: nat, alignment: nat, base: nat) returns (k: int, offset: nat)
      requires Matches() && alignment > 0
      ensures Chosen(view, k, Request(size, alignment, base, true))
      ensures k >= 0 ==> Offer(view[k], Request(size, alignment, base, true)) == Some(offset)
    {
      k := 0;
      while k < |holes|
        invariant 0 <= k <= |holes|
        invariant forall j :: 0 <= j < k ==> Offer(view[j], Request(size, alignment, base, true)) == None
      {
        var found;
        found, offset := OfferHigh(holes[k], size, alignment, base);
        if found {
          return;
        }
        k := k + 1;
      }
      k, offset := -1, 0;
    }

    // calloc and list_add: a new hole that becomes element k of the list.
    method AddHole(k: nat, offset: nat, size: nat)
      requires Matches() && k <= |holes|
      modifies this`holes, this`view
      ensures Matches() && view == old(view)[..k] + [Range(offset, size)] + old(view)[k..]
      ensures |holes| == old(|holes|) + 1 && fresh(holes[k])
      ensures holes == old(holes[..k]) + [holes[k]] + old(holes[k..])
    {
      var n := new Hole(offset, size);
      holes := holes[..k] + [n] + holes[k..];
      view := view[..k] + [Range(offset, size)] + view[k..];
    }

    // list_del and free
    method DeleteHole(k: nat)
      requires Matches() && k < |holes|
      modifies this`holes, this`view
      ensures Matches() && view == old(view)[..k] + old(view)[k + 1..]
      ensures holes == old(holes[..k] + holes[k + 1..])
    {
      holes := holes[..k] + holes[k + 1..];
      view := view[..k] + view[k + 1..];
    }

    method SetHole(k: nat, offset: nat, size: nat)
      requires Matches() && k < |holes|
      modifies holes[k], this`view
      ensures holes == old(holes)
      ensures Matches() && view == old(view)[k := Range(offset, size)]
    {
      holes[k].size := size;
      holes[k].offset := offset;
      view := view[k := Range(offset, size)];
    }

    // amdgpu_vamgr_subtract_hole: cut [s, e) out of hole k.  Only a cut that leaves two parts allocates.
    method SubtractHole(k: nat, s: nat, e: nat, callocOk: bool) returns (ret: int)
      requires Matches() && k < |holes| && s < TWO_64 && e < TWO_64
      requires holes[k].offset < TWO_64 && holes[k].size < TWO_64
      modifies this`holes, this`view, holes[k]
      ensures Matches() && forall j :: 0 <= j < |holes| ==> holes[j] in old(holes) || fresh(holes[j])
      ensures ret == if !callocOk && |RemainsInWords(old(view)[k], s, e)| == 2 then -ENOMEM else 0
      ensures view == if ret == 0 then CutInWords(old(view), k, s, e) else old(view)
    {
      var hole := holes[k];
      ghost var v := view;
      WordDifference(s, hole.offset);
      WordDifference(hole.size, Sub64(e, hole.offset));
      CutInWordsIsUpdate(v, k, s, e);
      if s > hole.offset && Sub64(e, hole.offset) < hole.size {
        if !callocOk {
          return -ENOMEM;
        }
        AddHole(k + 1, hole.offset, Sub64(s, hole.offset));
        SetHole(k, e, Sub64(hole.size, Sub64(e, hole.offset)));
      } else if s > hole.offset {
        SetHole(k, hole.offset, Sub64(s, hole.offset));
      } else if Sub64(e, hole.offset) < hole.size {
        SetHole(k, e, Sub64(hole.size, Sub64(e, hole.offset)));
      } else {
        DeleteHole(k);
      }
      ret := 0;
    }

    // amdgpu_vamgr_find_va, for every request.  `callocOk` is calloc's answer should a hole have to be
    // split; k is the hole chosen, or -1.  First what the code does, then what that is worth: the answer
    // is right exactly if the test of the hole chosen was.
    method FindVa(sizeAsked: nat, alignmentAsked: nat, base: nat, fromTop: bool, callocOk: bool)
      returns (ret: int, va: nat, ghost k: int)
      requires Valid() && sizeAsked < TWO_64 && alignmentAsked < TWO_64 && base < TWO_64
      modifies this`holes, this`view, this`live, holes
      ensures Matches() && forall j :: 0 <= j < |holes| ==> holes[j] in old(holes) || fresh(holes[j])
      ensures var q := Asked(sizeAsked, alignmentAsked, base, fromTop);
        && (ret == -EINVAL <==> base % q.alignment != 0)
        && (if ret == -EINVAL then k == -1 else Chosen(old(view), k, q))
        && (k == -1 && ret != -EINVAL ==> ret == -ENOMEM)
        && (k >= 0 ==> Offer(old(view)[k], q) == Some(va) && ret == Answer(old(view)[k], va, q.size, callocOk))
        && view == if ret == 0 then CutInWords(old(view), k, va, Add64(va, q.size)) else old(view)
      ensures var q := Asked(sizeAsked, alignmentAsked, base, fromTop);
        ret != -EINVAL && q.size > 0 ==> Outcome(old(view), k, q, va, ret, callocOk, view)
      ensures var q := Asked(sizeAsked, alignmentAsked, base, fromTop);
        && live == (if ret == 0 && q.size > 0 && Sound(old(view)[k], q)
                    then old(live) + {Range(va, q.size)} else old(live))
        && (ret != 0 || (q.size > 0 && Sound(old(view)[k], q)) ==> Valid())
        && (ret == 0 && q.size == 0 && Sound(old(view)[k], q) ==>
              SameFree(old(view), view) && (Valid() <==> !Splits(old(view)[k], va, 0)))
      ensures old(LiveSizes()) && Rounded(Rounded(sizeAsked)) == Rounded(sizeAsked) ==> LiveSizes()
    {
      va, k := 0, -1;
      var alignment := if alignmentAsked > vaAlignment then alignmentAsked else vaAlignment;
      RoundDownIsGreatest(Add64(sizeAsked, vaAlignment - 1), vaAlignment, 0);
      var size := Align64(sizeAsked, vaAlignment);
      if base % alignment != 0 {
        return -EINVAL, va, k;
      }
      ret, va, k := Place(size, alignment, base, fromTop, callocOk);
    }

    // The loop of find_va, with the lock held.
    method Place(size: nat, alignment: nat, base: nat, fromTop: bool, callocOk: bool)
      returns (ret: int, va: nat, ghost k: int)
      requires Valid() && size < TWO_64 && 0 < alignment < TWO_64 && base < TWO_64
      modifies this`holes, this`view, this`live, holes
      ensures Matches() && forall j :: 0 <= j < |holes| ==> holes[j] in old(holes) || fresh(holes[j])
      ensures var q := Request(size, alignment, base, fromTop);
        && Chosen(old(view), k, q)
        && (k == -1 ==> ret == -ENOMEM)
        && (k >= 0 ==> Offer(old(view)[k], q) == Some(va) && ret == Answer(old(view)[k], va, size, callocOk))
        && view == if ret == 0 then CutInWords(old(view), k, va, Add64(va, size)) else old(view)
      ensures old(LiveSizes()) && Rounded(size) == size ==> LiveSizes()
      ensures size > 0 ==> Outcome(old(view), k, Request(size, alignment, base, fromTop), va, ret, callocOk, view)
      ensures var q := Request(size, alignment, base, fromTop);
        && live == (if ret == 0 && size > 0 && Sound(old(view)[k], q)
                    then old(live) + {Range(va, size)} else old(live))
        && (ret != 0 || (size > 0 && Sound(old(view)[k], q)) ==> Valid())
        && (ret == 0 && size == 0 && Sound(old(view)[k], q) ==>
              SameFree(old(view), view) && (Valid() <==> !Splits(old(view)[k], va, 0)))
    {
      ghost var v, q := view, Request(size, alignment, base, fromTop);
      var chosen;
      chosen, va := Search(size, alignment, base, fromTop);
      k := chosen;
      if chosen == -1 {
        if size > 0 { NoneChosen(view, q); }
        return -ENOMEM, va, k;
      }
      OfferIsRight(v[k], q);
      ret := Take(chosen, va, size, callocOk);
      if size > 0 { OutcomeOfCut(v, k, q, va, ret, callocOk, view); }
    }

    method Search(size: nat, alignment: nat, base: nat, fromTop: bool) returns (k: int, va: nat)
      requires Matches() && alignment > 0
      ensures var q := Request(size, alignment, base, fromTop);
        Chosen(view, k, q) && (k >= 0 ==> Offer(view[k], q) == Some(va))
    {
      if !fromTop {
        k, va := SearchFromBottom(size, alignment, base);
      } else {
        k, va := SearchFromTop(size, alignment, base);
      }
    }

    // The end of find_va: the hole chosen is cut, and the range is live if it was in the hole.
    method Take(k: nat, va: nat, size: nat, callocOk: bool) returns (ret: int)
      requires Valid() && k < |holes| && va < TWO_64 && size < TWO_64
      modifies this`holes, this`view, this`live, holes
      ensures Matches() && forall j :: 0 <= j < |holes| ==> holes[j] in old(holes) || fresh(holes[j])
      ensures ret == Answer(old(view)[k], va, size, callocOk)
      ensures view == if ret == 0 then CutInWords(old(view), k, va, Add64(va, size)) else old(view)
      ensures live == if ret == 0 && size > 0 && Fits(old(view)[k], va, size)
                      then old(live) + {Range(va, size)} else old(live)
      ensures ret != 0 || (size > 0 && Fits(old(view)[k], va, size)) ==> Valid()
      ensures ret == 0 && size == 0 && Fits(old(view)[k], va, 0) ==>
                SameFree(old(view), view) && (Valid() <==> !Splits(old(view)[k], va, 0))
    {
      ghost var v := view;
      ret := SubtractHole(k, va, Add64(va, size), callocOk);
      if ret == 0 && Fits(v[k], va, size) {
        ghost var taken := if size > 0 then live + {Range(va, size)} else live;
        TakenIsConsistent(v, k, va, size, live, start, vaMax, view, taken);
        live := taken;
      }
    }

    // The loop of amdgpu_vamgr_free_va: how many holes lie at or above va.
    method HolesAbove(va: nat) returns (i: nat)
      requires Matches() && Separated(view)
      ensures SplitsAt(view, va, i)
    {
      i := 0;
      while i < |holes| && holes[i].offset >= va
        invariant i <= |holes|
        invariant forall k :: 0 <= k < i ==> view[k].offset >= va
      {
        i := i + 1;
      }
    }

    // The rest of amdgpu_vamgr_free_va: hole i - 1 is the one above va, hole i the one below.
    method Return(i: nat, va: nat, size: nat, callocOk: bool) returns (done: bool)
      requires Matches() && i <= |holes| && va + size < TWO_64
      requires forall k :: 0 <= k < |holes| ==> view[k].End() < TWO_64
      modifies this`holes, this`view, holes
      ensures Matches() && forall j :: 0 <= j < |holes| ==> holes[j] in old(holes) || fresh(holes[j])
      ensures view == if done then Freed(old(view), i, va, size) else old(view)
      ensures done == (callocOk || Joins(old(view), i, va, size))
    {
      WordSum(va, size);
      if i > 0 && holes[i - 1].offset == Add64(va, size) {
        GrowUpper(i, va, size);
        return true;
      }
      if i < |holes| {
        WordSum(holes[i].offset, holes[i].size);
        if Add64(holes[i].offset, holes[i].size) == va {
          WordSum(holes[i].size, size);
          SetHole(i, holes[i].offset, Add64(holes[i].size, size));
          return true;
        }
      }
      if callocOk {
        AddHole(i, va, size);
      }
      done := callocOk;
    }

    method ReturnRange(va: nat, size: nat, callocOk: bool) returns (done: bool, ghost i: nat)
      requires Matches() && Separated(view) && va + size < TWO_64
      requires vaMax < TWO_64 && Within(view, start, vaMax)
      modifies this`holes, this`view, holes
      ensures Matches() && forall j :: 0 <= j < |holes| ==> holes[j] in old(holes) || fresh(holes[j])
      ensures SplitsAt(old(view), va, i) && done == (callocOk || Joins(old(view), i, va, size))
      ensures view == if done then Freed(old(view), i, va, size) else old(view)
    {
      var above := HolesAbove(va);
      done := Return(above, va, size, callocOk);
      i := above;
    }

    // Grow the upper hole down to va, and merge it into the lower hole if that is adjacent too.
    method GrowUpper(i: nat, va: nat, size: nat)
      requires Matches() && 0 < i <= |holes| && holes[i - 1].offset == va + size < TWO_64
      requires forall k :: 0 <= k < |holes| ==> view[k].End() < TWO_64
      modifies this`holes, this`view, holes
      ensures Matches() && view == Freed(old(view), i, va, size)
      ensures forall j :: 0 <= j < |holes| ==> holes[j] in old(holes)
    {
      WordSum(holes[i - 1].size, size);
      if i < |holes| {
        WordSum(holes[i].offset, holes[i].size);
      }
      SetHole(i - 1, va, Add64(holes[i - 1].size, size));
      if i < |holes| && Add64(holes[i].offset, holes[i].size) == va {
        WordSum(holes[i].size, holes[i - 1].size);
        SetHole(i, holes[i].offset, Add64(holes[i].size, holes[i - 1].size));
        DeleteHole(i - 1);
      }
    }

    // amdgpu_vamgr_free_va.  When no hole is adjacent and calloc fails, and only then, the range is lost: it
    // stays neither free nor usable.
    method FreeVa(va: nat, sizeGiven: nat, callocOk: bool) returns (done: bool)
      requires Valid() && sizeGiven < TWO_64
      requires va == AMDGPU_INVALID_VA_ADDRESS || Range(va, Rounded(sizeGiven)) in live
      modifies this`holes, this`view, this`live, holes
      ensures Valid() && forall j :: 0 <= j < |holes| ==> holes[j] in old(holes) || fresh(holes[j])
      ensures done == (va != AMDGPU_INVALID_VA_ADDRESS && (callocOk || Touches(old(view), va, Rounded(sizeGiven))))
      ensures done ==> live == old(live) - {Range(va, Rounded(sizeGiven))}
      ensures done ==> Grows(old(view), view, va, Rounded(sizeGiven))
      ensures !done ==> live == old(live) && view == old(view)
    {
      if va == AMDGPU_INVALID_VA_ADDRESS {
        return false;
      }
      RoundDownIsGreatest(Add64(sizeGiven, vaAlignment - 1), vaAlignment, 0);
      var size := Align64(sizeGiven, vaAlignment);
      done := GiveBack(va, size, callocOk);
    }

    method GiveBack(va: nat, size: nat, callocOk: bool) returns (done: bool)
      requires Valid() && Range(va, size) in live
      modifies this`holes, this`view, this`live, holes
      ensures Valid() && forall j :: 0 <= j < |holes| ==> holes[j] in old(holes) || fresh(holes[j])
      ensures done == (callocOk || Touches(old(view), va, size))
      ensures live == if done then old(live) - {Range(va, size)} else old(live)
      ensures done ==> Grows(old(view), view, va, size)
      ensures !done ==> view == old(view)
    {
      ghost var v := view;
      LiveIsWithin(v, live, start, vaMax, Range(va, size));
      ghost var i;
      done, i := ReturnRange(va, size, callocOk);
      ghost var before, rest := live, live - {Range(va, size)};
      if done {
        FreedIsConsistent(v, i, va, size, live, start, vaMax, view, rest);
        live := rest;
      }
      JoinsWhatTouches(v, i, va, size, before, start, vaMax);
    }
  }

  ghost predicate Joins(v: seq<Range>, i: nat, va: nat, size: nat)
    requires i <= |v|
  {
    (i > 0 && v[i - 1].offset == va + size) || (i < |v| && v[i].End() == va)
  }

  // Some hole ends where the range starts, or starts where it ends.
  ghost predicate Touches(v: seq<Range>, va: nat, size: nat) {
    exists k :: 0 <= k < |v| && (v[k].End() == va || v[k].offset == va + size)
  }

  // Only the two holes around the range can touch it.
  lemma JoinsWhatTouches(v: seq<Range>, i: nat, va: nat, size: nat, live: set<Range>, start: nat, end: nat)
    requires Consistent(v, live, start, end) && SplitsAt(v, va, i) && Range(va, size) in live
    ensures Joins(v, i, va, size) <==> Touches(v, va, size)
  {
    LiveIsClear(v, live, start, end, Range(va, size));
    HolesKeepClear(v, i, va, size);
    if Joins(v, i, va, size) {
      var k := if i > 0 && v[i - 1].offset == va + size then i - 1 else i;
      assert v[k].End() == va || v[k].offset == va + size;
    }
  }

  // A live range is inside the managed range and has no free address; some hole list entry is
  // non-empty because the managed range is.
  lemma LiveIsClear(v: seq<Range>, live: set<Range>, start: nat, end: nat, r: Range)
    requires Consistent(v, live, start, end) && r in live
    ensures r.size > 0 && start <= r.offset && r.End() <= end
    ensures NoneFree(v, r.offset, r.size) && NonEmpty(v)
  {
    forall a | r.Has(a)
      ensures Taken(live, a) && !Free(v, a) && start <= a < end
    {
    }
    assert r.Has(r.offset) && r.Has(r.End() - 1);
  }

  lemma LiveIsWithin(v: seq<Range>, live: set<Range>, start: nat, end: nat, r: Range)
    requires Consistent(v, live, start, end) && r in live
    ensures r.size > 0 && start <= r.offset && r.End() <= end
  {
    LiveIsClear(v, live, start, end, r);
  }

  // Exactly [va, va + size) has become free as well.
  ghost predicate Grows(v: seq<Range>, w: seq<Range>, va: nat, size: nat) {
    forall a :: Free(w, a) <==> Free(v, a) || va <= a < va + size
  }

  // Exactly [va, va + size) is no longer free.
  ghost predicate Shrinks(v: seq<Range>, w: seq<Range>, va: nat, size: nat) {
    forall a :: Free(w, a) <==> Free(v, a) && !(va <= a < va + size)
  }

  lemma FreedFreesRest(v: seq<Range>, i: nat, va: nat, size: nat, w: seq<Range>)
    requires Separated(v) && NonEmpty(v) && SplitsAt(v, va, i) && size > 0 && NoneFree(v, va, size)
    requires w == Freed(v, i, va, size)
    ensures Grows(v, w, va, size)
  {
    forall a ensures Free(w, a) <==> Free(v, a) || va <= a < va + size { FreedFrees(v, i, va, size, a); }
  }

  lemma FreedIsConsistent(v: seq<Range>, i: nat, va: nat, size: nat, live: set<Range>, start: nat, end: nat,
                          w: seq<Range>, live': set<Range>)
    requires Consistent(v, live, start, end) && SplitsAt(v, va, i) && Range(va, size) in live
    requires w == Freed(v, i, va, size) && live' == live - {Range(va, size)}
    ensures Consistent(w, live', start, end) && Grows(v, w, va, size)
  {
    var r := Range(va, size);
    LiveIsClear(v, live, start, end, r);
    FreedSeparates(v, i, va, size);
    FreedStaysWithin(v, i, va, size, start, end);
    FreedFreesRest(v, i, va, size, w);
    forall a
      ensures Taken(live', a) <==> Taken(live, a) && !r.Has(a)
    {
      if q :| q in live && q.Has(a) && !r.Has(a) { assert q in live'; }
    }
    assert forall a :: r.Has(a) ==> Taken(live, a);
  }

  lemma FreedStaysWithin(v: seq<Range>, i: nat, va: nat, size: nat, start: nat, end: nat)
    requires Within(v, start, end) && i <= |v| && start <= va && va + size <= end
    ensures Within(Freed(v, i, va, size), start, end)
  {
  }

  lemma CutIsConsistent(v: seq<Range>, k: nat, s: nat, e: nat, live: set<Range>, start: nat, end: nat,
                        w: seq<Range>, live': set<Range>)
    requires Consistent(v, live, start, end) && k < |v| && v[k].offset <= s < e <= v[k].End()
    requires w == Cut(v, k, s, e) && live' == live + {Range(s, e - s)}
    ensures Consistent(w, live', start, end)
  {
    var r := Range(s, e - s);
    CutSeparates(v, k, s, e);
    CutStaysWithin(v, k, s, e, start, end);
    forall a
      ensures Free(w, a) <==> Free(v, a) && !r.Has(a)
      ensures Taken(live', a) <==> Taken(live, a) || r.Has(a)
      ensures r.Has(a) ==> Free(v, a)
    {
      CutFrees(v, k, s, e, a);
      assert r.Has(a) ==> v[k].Has(a);
    }
    forall q | q in live
      ensures r.End() <= q.offset || q.End() <= r.offset
    {
      NewRangeIsApart(v, live, start, end, r, q);
    }
  }

  // What the cut is worth: the range chosen was the best there is and is no longer free, or it was
  // not even free.
  lemma OutcomeOfCut(v: seq<Range>, k: int, q: Request, va: nat, ret: int, callocOk: bool, w: seq<Range>)
    requires Separated(v) && AllWords(v, q) && q.size > 0 && k >= 0 && Chosen(v, k, q)
    requires Offer(v[k], q) == Some(va) && ret == Answer(v[k], va, q.size, callocOk)
    requires ret == 0 ==> w == CutInWords(v, k, va, Add64(va, q.size))
    ensures Outcome(v, k, q, va, ret, callocOk, w)
  {
    ChosenIsBestIff(v, k, q);
    OfferIsRight(v[k], q);
    if Fits(v[k], va, q.size) { CutOutcome(v, k, va, q.size, ret, callocOk, w); }
  }

  lemma CutOutcome(v: seq<Range>, k: int, va: nat, size: nat, ret: int, callocOk: bool, w: seq<Range>)
    requires Separated(v) && 0 <= k < |v| && Fits(v[k], va, size) && v[k].End() < TWO_64
    requires ret == Answer(v[k], va, size, callocOk)
    requires ret == 0 ==> w == CutInWords(v, k, va, Add64(va, size))
    ensures if ret == 0 then Shrinks(v, w, va, size) else !callocOk && Splits(v[k], va, size)
  {
    WordSum(va, size);
    CutInWordsIsCut(v, k, va, va + size);
    forall a
      ensures Free(Cut(v, k, va, va + size), a) <==> Free(v, a) && !(va <= a < va + size)
    {
      CutFrees(v, k, va, va + size, a);
    }
  }

  lemma TakenIsConsistent(v: seq<Range>, k: nat, va: nat, size: nat, live: set<Range>, start: nat, end: nat,
                          w: seq<Range>, live': set<Range>)
    requires Consistent(v, live, start, end) && end < TWO_64 && k < |v| && Fits(v[k], va, size)
    requires w == CutInWords(v, k, va, Add64(va, size))
    requires live' == if size > 0 then live + {Range(va, size)} else live
    ensures size > 0 ==> Consistent(w, live', start, end)
    ensures size == 0 ==> SameFree(v, w) && (Consistent(w, live', start, end) <==> !Splits(v[k], va, 0))
  {
    WordSum(va, size);
    CutInWordsIsCut(v, k, va, va + size);
    if size > 0 {
      CutIsConsistent(v, k, va, va + size, live, start, end, w, live');
    } else {
      NothingTaken(v, k, va, live, start, end, w);
    }
  }

  // Nothing is cut out of hole k: the same addresses stay free, but a hole may be torn into two that
  // touch.
  lemma NothingTaken(v: seq<Range>, k: nat, s: nat, live: set<Range>, start: nat, end: nat, w: seq<Range>)
    requires Consistent(v, live, start, end) && k < |v| && v[k].offset <= s <= v[k].End()
    requires w == Cut(v, k, s, s)
    ensures SameFree(v, w) && (Consistent(w, live, start, end) <==> !Splits(v[k], s, 0))
  {
    CutSeparates(v, k, s, s);
    CutStaysWithin(v, k, s, s, start, end);
    forall a
      ensures Free(v, a) <==> Free(w, a)
    {
      CutFrees(v, k, s, s, a);
    }
  }

  lemma NewRangeIsApart(v: seq<Range>, live: set<Range>, start: nat, end: nat, r: Range, q: Range)
    requires Partition(v, live, start, end) && q in live && forall a :: r.Has(a) ==> Free(v, a)
    requires r.size > 0
    ensures r.End() <= q.offset || q.End() <= r.offset
  {
    var a := if q.offset >= r.offset then q.offset else r.offset;
    if r.Has(a) && q.Has(a) {
      assert Taken(live, a);
    }
  }

  lemma CutStaysWithin(v: seq<Range>, k: nat, s: nat, e: nat, start: nat, end: nat)
    requires Within(v, start, end) && k < |v| && v[k].offset <= s <= e <= v[k].End()
    ensures Within(Cut(v, k, s, e), start, end)
  {
  }

  // amdgpu_va_range_free on a handle of this manager: the address 0 is taken for "no range", so a
  // range that was allocated there is never given back.
  method RangeFree(m: VaManager, address: nat, size: nat) returns (freed: bool)
    requires m.Valid() && size < TWO_64
    requires Range(address, m.Rounded(size)) in m.live
    modifies m`holes, m`view, m`live, m.holes
    ensures m.Valid()
    ensures freed <==> address != 0
    ensures freed ==> Grows(old(m.view), m.view, address, m.Rounded(size))
    ensures !freed ==> m.view == old(m.view) && m.live == old(m.live)
  {
    if address == 0 {
      return false;
    }
    LiveIsWithin(m.view, m.live, m.start, m.vaMax, Range(address, m.Rounded(size)));
    freed := m.FreeVa(address, size, true);
  }

  // The hole the search will choose is one whose test can be trusted, or there is none.
  ghost predicate Trusted(v: seq<Range>, q: Request)
    requires q.alignment > 0
  {
    forall k :: 0 <= k < |v| && Chosen(v, k, q) ==> Sound(v[k], q)
  }

  // Giving back what has just been allocated restores the identical hole list.
  method AllocThenFree(m: VaManager, size: nat, alignment: nat, base: nat, fromTop: bool) returns (ret: int)
    requires m.Valid() && size < TWO_64 && alignment < TWO_64 && base < TWO_64
    requires m.Rounded(size) > 0 && Trusted(m.view, m.Asked(size, alignment, base, fromTop))
    modifies m`holes, m`view, m`live, m.holes
    ensures m.Valid() && m.view == old(m.view) && m.live == old(m.live)
  {
    ghost var v := m.view;
    var va;
    ghost var k;
    ret, va, k := m.FindVa(size, alignment, base, fromTop, true);
    if ret == 0 {
      ghost var w, r := m.view, Range(va, m.Rounded(size));
      RangeWasFree(v, old(m.live), m.start, m.vaMax, va, r.size);
      LiveIsWithin(w, m.live, m.start, m.vaMax, r);
      var done := m.FreeVa(va, size, true);
      assert old(m.live) + {r} - {r} == old(m.live);
      UndoneFree(v, w, m.view, va, r.size);
      Canonical(m.view, v);
    }
  }

  // A range that was free was not live, and a manager with a free range has no empty hole.
  lemma RangeWasFree(v: seq<Range>, live: set<Range>, start: nat, end: nat, va: nat, size: nat)
    requires Consistent(v, live, start, end) && FreeRange(v, va, size) && size > 0
    ensures Range(va, size) !in live && start < end && NonEmpty(v)
  {
    assert Free(v, va);
    if Range(va, size) in live {
      assert Range(va, size).Has(va);
    }
  }

  lemma UndoneFree(v: seq<Range>, w: seq<Range>, u: seq<Range>, va: nat, size: nat)
    requires Shrinks(v, w, va, size) && Grows(w, u, va, size) && FreeRange(v, va, size)
    ensures SameFree(u, v)
  {
  }

  // Freeing every live range, in whatever order, restores the single initial hole.
  method FreeAll(m: VaManager, order: seq<Range>)
    requires m.Valid() && m.LiveSizes() && m.start < m.vaMax
    requires forall r :: r in m.live <==> r in order
    requires forall j, k :: 0 <= j < k < |order| ==> order[j] != order[k]
    modifies m`holes, m`view, m`live, m.holes
    ensures m.Valid() && m.live == {} && m.view == [Range(m.start, m.vaMax - m.start)]
  {
    var i := 0;
    while i < |order|
      invariant i <= |order| && m.Valid()
      invariant forall j :: 0 <= j < |m.holes| ==> m.holes[j] in old(m.holes) || fresh(m.holes[j])
      invariant forall r :: r in m.live <==> r in order[i..]
      invariant m.live <= old(m.live)
    {
      var r := order[i];
      assert r in order[i..];
      LiveIsWithin(m.view, m.live, m.start, m.vaMax, r);
      var done := m.FreeVa(r.offset, r.size, true);
      assert forall q :: q in order[i..] <==> q == r || q in order[i + 1..];
      i := i + 1;
    }
    assert m.live == {};
    NothingLive(m.view, m.start, m.vaMax);
  }

  lemma NothingLive(v: seq<Range>, start: nat, end: nat)
    requires Consistent(v, {}, start, end) && start < end
    ensures v == [Range(start, end - start)]
  {
    var w := [Range(start, end - start)];
    forall a
      ensures Free(v, a) <==> Free(w, a)
    {
      assert Free(w, a) <==> w[0].Has(a);
      assert !Taken({}, a);
    }
    Canonical(v, w);
  }

  // What find_va makes of a list of one hole that passes its test.
  lemma SoleHole(v: seq<Range>, h: Range, k: int, q: Request, s: nat, e: nat)
    requires v == [h] && q.alignment > 0 && Offer(h, q) != None && Chosen(v, k, q)
    ensures k == 0 && CutInWords(v, k, s, e) == RemainsInWords(h, s, e)
  {
    assert v[0] == h;
    var r := RemainsInWords(h, s, e);
    assert v[..0] + r + v[1..] == r;
  }

  // The first request to a new manager.
  ghost predicate Accepts(start: nat, max: nat, vaAlignment: nat, q: Request, va: nat) {
    && start <= max < TWO_64 && 0 < vaAlignment <= q.alignment && Words(Range(start, max - start), q)
    && q.base % q.alignment == 0 && Align64(q.size, vaAlignment) == q.size
    && Offer(Range(start, max - start), q) == Some(va)
  }

  method FirstRequest(start: nat, max: nat, vaAlignment: nat, size: nat, alignment: nat, base: nat, ghost va: nat)
    returns (m: VaManager, ret: int, address: nat)
    requires Accepts(start, max, vaAlignment, Request(size, alignment, base, false), va)
    ensures ret == 0 && address == va
    ensures m.view == RemainsInWords(Range(start, max - start), va, Add64(va, size))
  {
    m := new VaManager(start, max, vaAlignment);
    ghost var v, h, k, q := m.view, Range(start, max - start), 0, Request(size, alignment, base, false);
    assert m.Asked(size, alignment, base, false) == q;
    ret, address, k := m.FindVa(size, alignment, base, false, true);
    SoleHole(v, h, k, q, va, Add64(va, size));
  }

  lemma AcceptsNothing()
    ensures Accepts(0x1000, 0x10000, 0x1000, Request(0, 0x4000, 0, false), 0x4000)
    ensures RemainsInWords(Range(0x1000, 0xf000), 0x4000, Add64(0x4000, 0)) ==
            [Range(0x4000, 0xc000), Range(0x1000, 0x3000)]
  {
  }

  // A request for nothing may tear a hole in two, here at an address that the alignment chose.
  method ZeroSizeRequestTearsHole() returns (m: VaManager, ret: int, va: nat)
    ensures ret == 0 && m.view == [Range(0x4000, 0xc000), Range(0x1000, 0x3000)] && !Separated(m.view)
  {
    AcceptsNothing();
    m, ret, va := FirstRequest(0x1000, 0x10000, 0x1000, 0, 0x4000, 0, 0x4000);
    assert m.view[1].End() == m.view[0].offset;
  }

  const TOP: nat := TWO_64 - 0x2000

  // A hole whose start rounds up to 2^64 itself is offered at 0, and cutting there deletes it.
  lemma WrappedToZero(h: Range, alignment: nat, size: nat)
    requires h.End() < TWO_64 && 0 < alignment < TWO_64 && RoundUp(h.offset, alignment) == TWO_64
    requires size <= h.End() && 0 < size < h.offset
    ensures Offer(h, Request(size, alignment, 0, false)) == Some(0)
    ensures RemainsInWords(h, 0, Add64(0, size)) == [] && !Free([h], 0)
  {
    assert [h][0] == h;
    StartInWords(h, alignment);
    BottomTestInWords(h, size, alignment);
    WordSum(0, size);
    WordDifference(size, h.offset);
    assert !(Sub64(size, h.offset) < h.size);
  }

  // From the bottom, the rounded start of a hole at the very top of the address space wraps to 0: the
  // address handed out was never free, and the hole is lost.
  method RoundedStartWraps() returns (m: VaManager, ret: int, va: nat)
    ensures ret == 0 && va == 0 && !Free([Range(TOP, 0x1000)], va) && m.view == []
  {
    WrappedToZero(Range(TOP, 0x1000), 0x1_0000, 0x1000);
    m, ret, va := FirstRequest(TOP, TOP + 0x1000, 0x1000, 0x1000, 0x1_0000, 0, 0);
  }

  lemma AcceptsWrappedEnd(base: nat)
    requires base == TWO_64 - 0x1000
    ensures Accepts(0x1000, 0x11000, 0x1000, Request(0x2000, 0x1000, base, false), base)
    ensures RemainsInWords(Range(0x1000, 0x10000), base, Add64(base, 0x2000)) ==
            [Range(0x1000, 0x10000), Range(0x1000, TWO_64 - 0x2000)]
  {
  }

  // The end of a required range wraps to the start of a hole: the request succeeds although its
  // address is not even managed, and the list is left with two holes that overlap.
  method RequiredBaseWraps() returns (m: VaManager, ret: int, va: nat)
    ensures ret == 0 && va == TWO_64 - 0x1000 && !Free([Range(0x1000, 0x10000)], va)
    ensures m.view == [Range(0x1000, 0x10000), Range(0x1000, TWO_64 - 0x2000)]
  {
    var base := TWO_64 - 0x1000;
    AcceptsWrappedEnd(base);
    m, ret, va := FirstRequest(0x1000, 0x11000, 0x1000, 0x2000, 0x1000, base, base);
  }

  // The rounded start is right exactly when the rounded-up address itself fits in 64 bits.
  lemma RoundedStartIsExact(offset: nat, alignment: nat)
    requires offset < TWO_64 && 0 < alignment < TWO_64
    ensures var waste := if offset % alignment != 0 then alignment - offset % alignment else 0;
      Add64(offset, waste) == RoundUp(offset, alignment) <==> RoundUp(offset, alignment) < TWO_64
  {
  }
}
