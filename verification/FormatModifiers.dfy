/**
 The (format, modifier) iterator of xf86drmMode.c.

 A blob lists formats and modifiers; each modifier says, in a 64-bit window, which formats it goes
 with.  The iterator resumes from two indices and must deliver every supported pair once, format by
 format.
 */
module FormatModifiers {

  const DRM_FORMAT_MOD_INVALID := 0x00ff_ffff_ffff_ffff
  const TWO_32 := 0x1_0000_0000

  datatype Modifier = Modifier(formats: bv64, offset: nat, modifier: nat)

  datatype Blob = Blob(formats: seq<nat>, modifiers: seq<Modifier>)

  // The value of the C expression `1 << k`, widened to 64 bits.  C defines it for k < 31 only;
  // nothing below depends on what a compiler makes of the rest.
  type Shift = int -> bv64

  // The test of _drmModeFormatModifierGetNext; offset + 64 is a 32-bit sum.
  predicate Matches(m: Modifier, f: nat, shl: Shift) {
    f >= m.offset && f < (m.offset + 64) % TWO_32 && m.formats & shl(f - m.offset) != 0
  }

  predicate Delivered(m: Modifier, f: nat, shl: Shift) {
    Matches(m, f, shl) && m.modifier != DRM_FORMAT_MOD_INVALID
  }

  // The same as a function, so that what is said about positions does not depend on the test.
  type Test = (Modifier, nat) -> bool

  function Hit(shl: Shift): Test {
    (m: Modifier, f: nat) => Delivered(m, f, shl)
  }

  // The positions still to be delivered from (f, j) on, formats first.
  function Positions(b: Blob, f: nat, j: nat, hit: Test): seq<(nat, nat)>
    decreases |b.formats| - f, |b.modifiers| - j
  {
    if f >= |b.formats| then []
    else if j >= |b.modifiers| then Positions(b, f + 1, 0, hit)
    else (if hit(b.modifiers[j], f) then [(f, j)] else []) + Positions(b, f, j + 1, hit)
  }

  predicate Before(p: (nat, nat), q: (nat, nat)) {
    p.0 < q.0 || (p.0 == q.0 && p.1 < q.1)
  }

  ghost predicate Ascending(s: seq<(nat, nat)>) {
    forall a, b :: 0 <= a < b < |s| ==> Before(s[a], s[b])
  }

  predicate Supported(b: Blob, p: (nat, nat), hit: Test) {
    p.0 < |b.formats| && p.1 < |b.modifiers| && hit(b.modifiers[p.1], p.0)
  }

  // Exactly the supported positions ...
  lemma {:induction false} PositionsAreExact(b: Blob, f: nat, j: nat, hit: Test)
    ensures forall p: (nat, nat) :: p in Positions(b, f, j, hit) <==>
              Supported(b, p, hit) && (p.0 > f || (p.0 == f && p.1 >= j))
    decreases |b.formats| - f, |b.modifiers| - j
  {
    if f >= |b.formats| {
    } else if j >= |b.modifiers| {
      PositionsAreExact(b, f + 1, 0, hit);
    } else {
      PositionsAreExact(b, f, j + 1, hit);
      RowStep(b, f, j, hit);
    }
  }

  // ... ascending, hence each once.
  lemma {:induction false} PositionsAscend(b: Blob, f: nat, j: nat, hit: Test)
    ensures Ascending(Positions(b, f, j, hit))
    decreases |b.formats| - f, |b.modifiers| - j
  {
    if f >= |b.formats| {
    } else if j >= |b.modifiers| {
      PositionsAscend(b, f + 1, 0, hit);
    } else {
      PositionsAscend(b, f, j + 1, hit);
      AscendOneMore(b, f, j, hit);
    }
  }

  lemma AscendOneMore(b: Blob, f: nat, j: nat, hit: Test)
    requires f < |b.formats| && j < |b.modifiers| && Ascending(Positions(b, f, j + 1, hit))
    ensures Ascending(Positions(b, f, j, hit))
  {
    RowStep(b, f, j, hit);
    if hit(b.modifiers[j], f) {
      RestIsAfter(b, f, j, hit);
      PutInFront((f, j), Positions(b, f, j + 1, hit), Positions(b, f, j, hit));
    }
  }

  lemma RestIsAfter(b: Blob, f: nat, j: nat, hit: Test)
    ensures forall q :: q in Positions(b, f, j + 1, hit) ==> Before((f, j), q)
  {
    PositionsAreExact(b, f, j + 1, hit);
  }

  lemma PutInFront(p: (nat, nat), rest: seq<(nat, nat)>, all: seq<(nat, nat)>)
    requires Ascending(rest) && forall q :: q in rest ==> Before(p, q)
    requires all == [p] + rest
    ensures Ascending(all)
  {
  }

  // drmModeFormatModifierIterator
  class Iterator {
    var fmtIdx: nat
    var modIdx: nat
    var fmt: nat
    var mod: nat

    constructor ()
      ensures fmtIdx == 0 && modIdx == 0
    {
      fmtIdx, modIdx, fmt, mod := 0, 0, 0, 0;
    }

    // The indices never rest on the end of a row.
    predicate Ready(b: Blob)
      reads this
    {
      modIdx < |b.modifiers| || modIdx == 0
    }

    function Remaining(b: Blob, hit: Test): seq<(nat, nat)>
      reads this
    {
      Positions(b, fmtIdx, modIdx, hit)
    }
  }

  // _drmModeFormatModifierGetNext: the next match in the current format's row, or the next row.
  method GetNext(b: Blob, it: Iterator, shl: Shift) returns (ok: bool)
    requires it.Ready(b)
    modifies it
    ensures it.Ready(b)
    ensures ok <==> old(it.fmtIdx) < |b.formats| && old(it.modIdx) < |b.modifiers|
    ensures !ok ==> old(it.Remaining(b, Hit(shl))) == [] && unchanged(it)
    ensures ok ==> Before((old(it.fmtIdx), old(it.modIdx)), (it.fmtIdx, it.modIdx)) && it.fmtIdx <= |b.formats|
    ensures ok ==> Progress(b, old(it.Remaining(b, Hit(shl))), it.Remaining(b, Hit(shl)), it.fmt, it.mod)
  {
    if it.fmtIdx >= |b.formats| || it.modIdx >= |b.modifiers| {
      NothingLeft(b, it.fmtIdx, Hit(shl));
      return false;
    }
    it.fmt := b.formats[it.fmtIdx];
    it.mod := DRM_FORMAT_MOD_INVALID;
    Scan(b, it, shl);
    if it.modIdx == |b.modifiers| {
      RowEnd(b, it.fmtIdx, Hit(shl));
      it.modIdx := 0;
      it.fmtIdx := it.fmtIdx + 1;
    }
    ok := true;
  }

  // Its loop over the modifiers.
  method Scan(b: Blob, it: Iterator, shl: Shift)
    requires it.fmtIdx < |b.formats| && it.modIdx < |b.modifiers|
    requires it.fmt == b.formats[it.fmtIdx] && it.mod == DRM_FORMAT_MOD_INVALID
    modifies it`modIdx, it`mod
    ensures old(it.modIdx) < it.modIdx <= |b.modifiers|
    ensures Progress(b, old(it.Remaining(b, Hit(shl))), it.Remaining(b, Hit(shl)), it.fmt, it.mod)
  {
    ghost var f := it.fmtIdx;
    ghost var all := Positions(b, f, it.modIdx, Hit(shl));
    while it.modIdx < |b.modifiers|
      invariant old(it.modIdx) <= it.modIdx <= |b.modifiers|
      invariant it.mod == DRM_FORMAT_MOD_INVALID
      invariant all == Positions(b, f, it.modIdx, Hit(shl))
    {
      RowStep(b, f, it.modIdx, Hit(shl));
      var mod := b.modifiers[it.modIdx];
      it.modIdx := it.modIdx + 1;
      var hit := Examine(mod, it.fmtIdx, shl);
      if hit {
        it.mod := mod.modifier;
        return;
      }
    }
  }

  // A match of the invalid modifier is found, and then not delivered.
  method Examine(mod: Modifier, f: nat, shl: Shift) returns (hit: bool)
    ensures hit && mod.modifier != DRM_FORMAT_MOD_INVALID <==> Hit(shl)(mod, f)
  {
    hit := InMask(mod, f, shl);
    HitMeans(mod, f, shl);
  }

  lemma HitMeans(m: Modifier, f: nat, shl: Shift)
    ensures Hit(shl)(m, f) <==> Matches(m, f, shl) && m.modifier != DRM_FORMAT_MOD_INVALID
  {
  }

  // Does the format belong to this modifier's window, and is its bit set?
  method InMask(mod: Modifier, f: nat, shl: Shift) returns (hit: bool)
    ensures hit ==> Matches(mod, f, shl)
    ensures !hit ==> !Matches(mod, f, shl)
  {
    if f < mod.offset || f >= (mod.offset + 64) % TWO_32 {
      return false;
    }
    if mod.formats & shl(f - mod.offset) == 0 {
      return false;
    }
    hit := true;
  }

  // Positions unfolds one modifier at a time ...
  lemma RowStep(b: Blob, f: nat, j: nat, hit: Test)
    requires f < |b.formats| && j < |b.modifiers|
    ensures var all, rest := Positions(b, f, j, hit), Positions(b, f, j + 1, hit);
      if hit(b.modifiers[j], f) then all == [(f, j)] + rest && all[1..] == rest else all == rest
  {
  }

  // ... and goes on with the next format at the end of a row.
  lemma RowEnd(b: Blob, f: nat, hit: Test)
    requires f < |b.formats|
    ensures Positions(b, f, |b.modifiers|, hit) == Positions(b, f + 1, 0, hit)
  {
  }

  // Either a pair has been taken from the front, or nothing has.
  ghost predicate Progress(b: Blob, all: seq<(nat, nat)>, rest: seq<(nat, nat)>, fmt: nat, mod: nat) {
    if mod == DRM_FORMAT_MOD_INVALID then all == rest else TakesFirst(b, all, rest, fmt, mod)
  }

  // `all` starts with a position whose pair is (fmt, mod), and `rest` follows it.
  ghost predicate TakesFirst(b: Blob, all: seq<(nat, nat)>, rest: seq<(nat, nat)>, fmt: nat, mod: nat) {
    && all != [] && all[1..] == rest
    && all[0].0 < |b.formats| && all[0].1 < |b.modifiers|
    && fmt == b.formats[all[0].0] && mod == b.modifiers[all[0].1].modifier
  }

  // Without modifiers, or past the last format, there is nothing.
  lemma NothingLeft(b: Blob, f: nat, hit: Test)
    requires f >= |b.formats| || |b.modifiers| == 0
    ensures Positions(b, f, 0, hit) == []
    decreases |b.formats| - f
  {
    if f < |b.formats| {
      NothingLeft(b, f + 1, hit);
    }
  }

  // drmModeFormatModifierBlobIterNext: skip rows without a match, and hand out the next pair.  The
  // caller's iterator moves only when there is one.
  method IterNext(b: Blob, iter: Iterator, shl: Shift) returns (more: bool)
    requires iter.Ready(b)
    modifies iter
    ensures iter.Ready(b)
    ensures more <==> old(iter.Remaining(b, Hit(shl))) != []
    ensures more ==> TakesFirst(b, old(iter.Remaining(b, Hit(shl))), iter.Remaining(b, Hit(shl)), iter.fmt, iter.mod)
    ensures !more ==> unchanged(iter)
  {
    var tmp := new Iterator();
    tmp.fmtIdx, tmp.modIdx := iter.fmtIdx, iter.modIdx;
    ghost var all := iter.Remaining(b, Hit(shl));
    more := GetNext(b, tmp, shl);
    while more && tmp.mod == DRM_FORMAT_MOD_INVALID
      invariant tmp.Ready(b) && unchanged(iter)
      invariant !more ==> all == []
      invariant more && tmp.mod == DRM_FORMAT_MOD_INVALID ==>
                  all == tmp.Remaining(b, Hit(shl)) && tmp.fmtIdx <= |b.formats|
      invariant more && tmp.mod != DRM_FORMAT_MOD_INVALID ==>
                  TakesFirst(b, all, tmp.Remaining(b, Hit(shl)), tmp.fmt, tmp.mod)
      decreases more, |b.formats| - tmp.fmtIdx, |b.modifiers| - tmp.modIdx
    {
      more := GetNext(b, tmp, shl);
    }
    if more {
      iter.fmtIdx, iter.modIdx, iter.fmt, iter.mod := tmp.fmtIdx, tmp.modIdx, tmp.fmt, tmp.mod;
    }
  }

  ghost predicate IsPairAt(b: Blob, pair: (nat, nat), p: (nat, nat)) {
    p.0 < |b.formats| && p.1 < |b.modifiers| && pair == (b.formats[p.0], b.modifiers[p.1].modifier)
  }

  // The pairs at the given positions, in that order.
  ghost predicate PairsAt(b: Blob, pairs: seq<(nat, nat)>, ps: seq<(nat, nat)>) {
    |pairs| == |ps| && forall k :: 0 <= k < |ps| ==> IsPairAt(b, pairs[k], ps[k])
  }

  // From a zeroed iterator, the loop every client writes delivers every supported pair once, in
  // order, and from then on the answer is false.
  method Drain(b: Blob, shl: Shift) returns (pairs: seq<(nat, nat)>)
    ensures PairsAt(b, pairs, Positions(b, 0, 0, Hit(shl)))
  {
    var iter := new Iterator();
    ghost var all := Positions(b, 0, 0, Hit(shl));
    pairs := [];
    var more := IterNext(b, iter, shl);
    ghost var rest := all;
    while more
      invariant iter.Ready(b) && |pairs| <= |all| && rest == all[|pairs|..]
      invariant PairsAt(b, pairs, all[..|pairs|])
      invariant more ==> TakesFirst(b, rest, iter.Remaining(b, Hit(shl)), iter.fmt, iter.mod)
      invariant !more ==> rest == [] && iter.Remaining(b, Hit(shl)) == []
      decreases |rest|
    {
      OneMorePair(b, pairs, all, iter.fmt, iter.mod);
      pairs := pairs + [(iter.fmt, iter.mod)];
      rest := iter.Remaining(b, Hit(shl));
      more := IterNext(b, iter, shl);
    }
    var again := IterNext(b, iter, shl);
    assert !again;
    assert all[..|pairs|] == all;
  }

  lemma OneMorePair(b: Blob, pairs: seq<(nat, nat)>, all: seq<(nat, nat)>, fmt: nat, mod: nat)
    requires |pairs| < |all| && PairsAt(b, pairs, all[..|pairs|]) && IsPairAt(b, (fmt, mod), all[|pairs|])
    ensures PairsAt(b, pairs + [(fmt, mod)], all[..|pairs| + 1]) && all[|pairs|..][1..] == all[|pairs| + 1..]
  {
  }

  // ----- the window -----

  const TOP_BITS: bv64 := 0xffff_ffff_8000_0000

  // What the kernel documents: bit k of the window.
  predicate WindowBit(formats: bv64, k: nat)
    requires k < 64
  {
    formats & ((1 as bv64) << k) != 0
  }

  // The documented test.
  predicate InWindow(m: Modifier, f: nat) {
    m.offset <= f < m.offset + 64 && WindowBit(m.formats, f - m.offset)
  }

  // A compiler for C computes the first 31 shifts as written, and 1 << 31 as the sign bit of an int,
  // which widening then smears over the upper half.
  ghost predicate CShift(shl: Shift) {
    && (forall k :: 0 <= k < 31 ==> shl(k) == (1 as bv64) << k)
    && shl(31) == TOP_BITS
  }

  lemma WindowEnd(m: Modifier)
    requires m.offset + 64 < TWO_32
    ensures (m.offset + 64) % TWO_32 == m.offset + 64
  {
  }

  // For the first 31 formats of a window the code tests the documented bit.
  lemma WindowIsTested(m: Modifier, f: nat, shl: Shift)
    requires CShift(shl) && m.offset + 64 < TWO_32 && m.offset <= f < m.offset + 31
    ensures Matches(m, f, shl) <==> InWindow(m, f)
  {
    if Matches(m, f, shl) { MatchIsInWindow(m, f, shl); }
    if InWindow(m, f) { InWindowMatches(m, f, shl); }
  }

  lemma MatchIsInWindow(m: Modifier, f: nat, shl: Shift)
    requires CShift(shl) && m.offset + 64 < TWO_32 && m.offset <= f < m.offset + 31 && Matches(m, f, shl)
    ensures InWindow(m, f)
  {
    WindowEnd(m);
  }

  lemma InWindowMatches(m: Modifier, f: nat, shl: Shift)
    requires CShift(shl) && m.offset + 64 < TWO_32 && m.offset <= f < m.offset + 31 && InWindow(m, f)
    ensures Matches(m, f, shl)
  {
    WindowEnd(m);
  }

  lemma OutsideWindow(m: Modifier, f: nat, shl: Shift)
    requires m.offset + 64 < TWO_32 && (f < m.offset || f >= m.offset + 64)
    ensures !Matches(m, f, shl)
  {
  }

  // For the 32nd it tests all the upper bits at once: right exactly when bit 31 is set or no higher
  // bit is.
  lemma Bit31IsSmeared(m: Modifier, shl: Shift)
    requires CShift(shl) && m.offset + 64 < TWO_32
    ensures (Matches(m, m.offset + 31, shl) <==> InWindow(m, m.offset + 31)) <==>
            WindowBit(m.formats, 31) || m.formats & 0xffff_ffff_0000_0000 == 0
  {
  }

  lemma Bit31CanBeWrong(shl: Shift)
    requires CShift(shl)
    ensures var m := Modifier(0x100_0000_0000, 0, 0); Matches(m, 31, shl) && !WindowBit(m.formats, 31)
  {
  }

  // ----- what is delivered against what is documented -----

  // The kernel says that this format goes with this modifier.
  ghost predicate Documented(b: Blob, p: (nat, nat)) {
    && p.0 < |b.formats| && p.1 < |b.modifiers|
    && InWindow(b.modifiers[p.1], p.0) && b.modifiers[p.1].modifier != DRM_FORMAT_MOD_INVALID
  }

  // No format is beyond the 32nd of a window, where the shift is undefined.
  ghost predicate NarrowWindows(b: Blob) {
    forall j :: 0 <= j < |b.modifiers| ==>
      b.modifiers[j].offset + 64 < TWO_32 && |b.formats| <= b.modifiers[j].offset + 32
  }

  // Where there is a 32nd format, its bit is set or no higher one is.
  ghost predicate NoneSmeared(b: Blob) {
    forall j :: 0 <= j < |b.modifiers| && b.modifiers[j].offset + 31 < |b.formats| ==> SmearsNothing(b.modifiers[j])
  }

  ghost predicate SmearsNothing(m: Modifier) {
    m.modifier == DRM_FORMAT_MOD_INVALID || WindowBit(m.formats, 31) || m.formats & 0xffff_ffff_0000_0000 == 0
  }

  // With a shift that is right for all 64 bits every window would be read as documented ...
  ghost predicate ExactShift(shl: Shift) {
    forall k :: 0 <= k < 64 ==> shl(k) == (1 as bv64) << k
  }

  lemma ExactTest(m: Modifier, f: nat, shl: Shift)
    requires ExactShift(shl) && m.offset + 64 < TWO_32
    ensures Hit(shl)(m, f) ==> InWindow(m, f) && m.modifier != DRM_FORMAT_MOD_INVALID
    ensures InWindow(m, f) && m.modifier != DRM_FORMAT_MOD_INVALID ==> Hit(shl)(m, f)
  {
    WindowEnd(m);
    if Hit(shl)(m, f) { ExactMatch(m, f, shl); }
    if InWindow(m, f) { ExactBit(m, f, shl); }
  }

  lemma ExactMatch(m: Modifier, f: nat, shl: Shift)
    requires ExactShift(shl) && m.offset + 64 < TWO_32 && Matches(m, f, shl)
    ensures InWindow(m, f)
  {
    WindowEnd(m);
  }

  lemma ExactBit(m: Modifier, f: nat, shl: Shift)
    requires ExactShift(shl) && m.offset + 64 < TWO_32 && InWindow(m, f)
    ensures Matches(m, f, shl)
  {
    WindowEnd(m);
  }

  lemma ExactShiftDelivers(b: Blob, shl: Shift)
    requires ExactShift(shl) && forall j :: 0 <= j < |b.modifiers| ==> b.modifiers[j].offset + 64 < TWO_32
    ensures DeliversTheDocumented(b, Positions(b, 0, 0, Hit(shl)))
  {
    PositionsAreExact(b, 0, 0, Hit(shl));
    forall p: (nat, nat) | p.0 < |b.formats| && p.1 < |b.modifiers|
      ensures Supported(b, p, Hit(shl)) <==> Documented(b, p)
    {
      ExactTest(b.modifiers[p.1], p.0, shl);
    }
  }

  // ... but for one that ends past 2^32, where the sum wraps and nothing matches.
  lemma WrappedWindow(m: Modifier, f: nat, shl: Shift)
    requires m.offset < TWO_32 <= m.offset + 64 && f < TWO_32
    ensures !Matches(m, f, shl)
  {
  }

  lemma DocumentedAt(b: Blob, p: (nat, nat), shl: Shift)
    requires CShift(shl) && NarrowWindows(b) && p.0 < |b.formats| && p.1 < |b.modifiers|
    ensures (Supported(b, p, Hit(shl)) <==> Documented(b, p)) <==>
            (p.0 == b.modifiers[p.1].offset + 31 ==> SmearsNothing(b.modifiers[p.1]))
  {
    var m := b.modifiers[p.1];
    if p.0 < m.offset + 31 {
      HitBelow(m, p.0, shl);
    } else {
      HitLast(m, shl);
    }
  }

  lemma HitBelow(m: Modifier, f: nat, shl: Shift)
    requires CShift(shl) && m.offset + 64 < TWO_32 && f < m.offset + 31
    ensures Hit(shl)(m, f) <==> InWindow(m, f) && m.modifier != DRM_FORMAT_MOD_INVALID
  {
    if f < m.offset { OutsideWindow(m, f, shl); } else { WindowIsTested(m, f, shl); }
  }

  lemma HitLast(m: Modifier, shl: Shift)
    requires CShift(shl) && m.offset + 64 < TWO_32
    ensures (Hit(shl)(m, m.offset + 31) <==> InWindow(m, m.offset + 31) && m.modifier != DRM_FORMAT_MOD_INVALID) <==>
            SmearsNothing(m)
  {
    Bit31IsSmeared(m, shl);
  }

  ghost predicate DeliversTheDocumented(b: Blob, positions: seq<(nat, nat)>) {
    forall p: (nat, nat) :: p in positions <==> Documented(b, p)
  }

  // The documented pairs are delivered, and no others, if and only if no window is smeared.
  lemma DocumentedIff(b: Blob, shl: Shift)
    requires CShift(shl) && NarrowWindows(b)
    ensures DeliversTheDocumented(b, Positions(b, 0, 0, Hit(shl))) <==> NoneSmeared(b)
  {
    PositionsAreExact(b, 0, 0, Hit(shl));
    forall p: (nat, nat) | p.0 < |b.formats| && p.1 < |b.modifiers|
      ensures (p in Positions(b, 0, 0, Hit(shl)) <==> Documented(b, p)) <==>
              (p.0 == b.modifiers[p.1].offset + 31 ==> SmearsNothing(b.modifiers[p.1]))
    {
      DocumentedAt(b, p, shl);
    }
    if DeliversTheDocumented(b, Positions(b, 0, 0, Hit(shl))) {
      forall j | 0 <= j < |b.modifiers| && b.modifiers[j].offset + 31 < |b.formats|
        ensures SmearsNothing(b.modifiers[j])
      {
        var p: (nat, nat) := (b.modifiers[j].offset + 31, j);
        assert p in Positions(b, 0, 0, Hit(shl)) <==> Documented(b, p);
      }
    }
  }

  // The whole iteration: the pairs at the supported positions, in ascending order; and these are the
  // documented positions if and only if no window is smeared.
  method Enumerate(b: Blob, shl: Shift) returns (pairs: seq<(nat, nat)>)
    ensures PairsAt(b, pairs, Positions(b, 0, 0, Hit(shl))) && Ascending(Positions(b, 0, 0, Hit(shl)))
    ensures CShift(shl) && NarrowWindows(b) ==>
              (DeliversTheDocumented(b, Positions(b, 0, 0, Hit(shl))) <==> NoneSmeared(b))
  {
    pairs := Drain(b, shl);
    PositionsAscend(b, 0, 0, Hit(shl));
    if CShift(shl) && NarrowWindows(b) { DocumentedIff(b, shl); }
  }
}
