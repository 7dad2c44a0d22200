/**
 The command streams of etnaviv_cmd_stream.c.

 A stream collects words, the table of the buffers they refer to, and relocations naming table
 entries.  A buffer remembers its index in the stream that used it last, so that looking it up is
 usually free; the memory must never disagree with a search of the table, whichever streams the
 buffer is in and in whatever order they are used and flushed.
 */
module CmdTables {

  const TWO_32 := 0x1_0000_0000
  const END_CLEARANCE := 2

  // Bits 0 and 1 of a flag word; the others are not looked at.
  datatype Access = Access(read: bool, write: bool)

  const NONE := Access(false, false)

  function Both(a: Access, b: Access): Access {
    Access(a.read || b.read, a.write || b.write)
  }

  datatype SubmitBo = SubmitBo(flags: Access, handle: nat)
  datatype SubmitReloc = SubmitReloc(submitOffset: nat, relocIdx: nat, relocOffset: nat)
  datatype SubmitPmr = SubmitPmr(flags: nat, sequence: nat, readOffset: nat, readIdx: nat, domain: nat, signal: nat)

  // ----- growing tables -----

  // grow, in uint32_t arithmetic: the capacity made for one more than nr entries
  function Grow(nr: nat, max: nat): nat {
    if nr + 1 <= max then max
    else if (2 * max) % TWO_32 < nr + 1 then (nr + 5) % TWO_32
    else (2 * max) % TWO_32
  }

  // A full table gets room for another entry exactly as long as its size plus five fits the type.
  lemma GrowMakesRoom(nr: nat)
    requires nr < TWO_32
    ensures nr < Grow(nr, nr) <==> nr + 5 < TWO_32
  {
  }

  // ----- offsets -----

  // stream->offset * 4
  function Bytes(word: nat): nat {
    (4 * word) % TWO_32
  }

  // Offsets in bytes order the words of a stream exactly if it has at most 2^30 of them.
  lemma OffsetsKeepOrder(size: nat)
    ensures (forall i, j :: 0 <= i < j < size ==> Bytes(i) < Bytes(j)) <==> size <= 0x4000_0000
  {
    if size > 0x4000_0000 {
      assert Bytes(0x4000_0000) == 0 < Bytes(0x3fff_ffff);
    }
  }

  lemma BytesAreExact(word: nat)
    requires word < 0x4000_0000
    ensures Bytes(word) == 4 * word
  {
  }

  // etna_cmd_stream_avail wraps once the clearance has been used up.
  lemma RoomFor(size: nat, offset: nat, n: nat)
    requires offset <= size < TWO_32
    ensures var avail := (size - offset - END_CLEARANCE) % TWO_32;
      (if avail < n then 0 else offset) + n + END_CLEARANCE <= size
      <==> offset + END_CLEARANCE <= size && n + END_CLEARANCE <= size
  {
  }

  // ----- one stream's tables -----

  datatype Ask<B> = Ask(bo: B, flags: Access)

  // All the access asked for a buffer.
  function Union<B(==)>(asked: seq<Ask<B>>, bo: B): Access {
    if asked == [] then NONE
    else
      var last := asked[|asked| - 1];
      var before := Union(asked[..|asked| - 1], bo);
      if last.bo == bo then Both(before, last.flags) else before
  }

  ghost predicate ReadAsked<B>(asked: seq<Ask<B>>, bo: B) {
    exists k :: 0 <= k < |asked| && asked[k].bo == bo && asked[k].flags.read
  }

  ghost predicate WriteAsked<B>(asked: seq<Ask<B>>, bo: B) {
    exists k :: 0 <= k < |asked| && asked[k].bo == bo && asked[k].flags.write
  }

  // A bit is in the union exactly if somebody asked for it.
  lemma {:induction false} UnionIsAny<B>(asked: seq<Ask<B>>, bo: B)
    ensures Union(asked, bo).read <==> ReadAsked(asked, bo)
    ensures Union(asked, bo).write <==> WriteAsked(asked, bo)
  {
    if asked != [] {
      var before, last := asked[..|asked| - 1], asked[|asked| - 1];
      UnionIsAny(before, bo);
      assert forall k :: 0 <= k < |before| ==> before[k] == asked[k];
    }
  }

  // A stream: its tables, and what was asked of it since the last flush.  Relocation k patches
  // word places[k] with the address of buffer targets[k].
  datatype Batch<B> = Batch(submitBos: seq<SubmitBo>, bos: seq<B>, relocs: seq<SubmitReloc>, pmrs: seq<SubmitPmr>,
                            asked: seq<Ask<B>>, targets: seq<B>, places: seq<nat>, readers: seq<B>,
                            offset: nat, size: nat)

  ghost predicate Distinct<B>(bos: seq<B>) {
    forall i, j :: 0 <= i < j < |bos| ==> bos[i] != bos[j]
  }

  // Each buffer once, with the access asked for it.
  ghost predicate Tables<B>(b: Batch<B>) {
    && Distinct(b.bos) && |b.submitBos| == |b.bos|
    && (forall k :: 0 <= k < |b.bos| ==> b.submitBos[k].flags == Union(b.asked, b.bos[k]))
    && (forall k :: 0 <= k < |b.asked| ==> b.asked[k].bo in b.bos)
  }

  ghost predicate Relocs<B>(b: Batch<B>) {
    && |b.relocs| == |b.targets| == |b.places| && b.offset <= b.size
    && (forall k :: 0 <= k < |b.relocs| ==> At(b.bos, b.relocs[k].relocIdx, b.targets[k]))
    && (forall k :: 0 <= k < |b.relocs| ==> b.relocs[k].submitOffset == Bytes(b.places[k]) && b.places[k] < b.offset)
    && (forall j, k :: 0 <= j < k < |b.places| ==> b.places[j] < b.places[k])
  }

  ghost predicate Pmrs<B>(b: Batch<B>) {
    && |b.pmrs| == |b.readers|
    && (forall k :: 0 <= k < |b.pmrs| ==> At(b.bos, b.pmrs[k].readIdx, b.readers[k]))
  }

  predicate At<B(==)>(bos: seq<B>, i: nat, bo: B) {
    i < |bos| && bos[i] == bo
  }

  ghost predicate Consistent<B>(b: Batch<B>) {
    Tables(b) && Relocs(b) && Pmrs(b)
  }

  // The slow path of bo2idx: the first entry holding the buffer, or the size of the table.
  function Search<B(==)>(bos: seq<B>, bo: B): (i: nat)
    ensures i <= |bos| && (i < |bos| <==> bo in bos) && (i < |bos| ==> bos[i] == bo)
  {
    if bos == [] then 0 else if bos[0] == bo then 0 else 1 + Search(bos[1..], bo)
  }

  lemma SearchIsUnique<B>(bos: seq<B>, bo: B, i: nat)
    requires Distinct(bos) && At(bos, i, bo)
    ensures Search(bos, bo) == i
  {
  }

  // ----- what a request does to the tables -----

  // append_bo, if the buffer is not there yet
  function Entered<B(==)>(b: Batch<B>, bo: B, handle: nat): Batch<B> {
    if bo in b.bos then b
    else b.(bos := b.bos + [bo], submitBos := b.submitBos + [SubmitBo(NONE, handle)])
  }

  // bo2idx, from index i on
  function Asked<B>(b: Batch<B>, bo: B, flags: Access, i: nat): Batch<B>
    requires i < |b.submitBos|
  {
    b.(submitBos := b.submitBos[i := b.submitBos[i].(flags := Both(b.submitBos[i].flags, flags))],
       asked := b.asked + [Ask(bo, flags)])
  }

  lemma {:induction false} NeverAsked<B>(asked: seq<Ask<B>>, bo: B)
    requires forall k :: 0 <= k < |asked| ==> asked[k].bo != bo
    ensures Union(asked, bo) == NONE
  {
    if asked != [] {
      NeverAsked(asked[..|asked| - 1], bo);
    }
  }

  lemma EnteredIsConsistent<B>(b: Batch<B>, bo: B, handle: nat)
    requires Consistent(b)
    ensures Consistent(Entered(b, bo, handle)) && bo in Entered(b, bo, handle).bos
    ensures b.bos <= Entered(b, bo, handle).bos
  {
    if bo !in b.bos {
      NeverAsked(b.asked, bo);
      EnteredTables(b, bo, handle);
    }
  }

  lemma EnteredTables<B>(b: Batch<B>, bo: B, handle: nat)
    requires Tables(b) && bo !in b.bos && Union(b.asked, bo) == NONE
    ensures Tables(Entered(b, bo, handle))
  {
  }

  lemma AskedIsConsistent<B>(b: Batch<B>, bo: B, flags: Access, i: nat)
    requires Consistent(b) && At(b.bos, i, bo)
    ensures Consistent(Asked(b, bo, flags, i))
  {
  }

  // The kernel is told of reading (writing) a buffer exactly if that was asked since the last flush.
  lemma FlagsAreAsked<B>(b: Batch<B>, k: nat)
    requires Consistent(b) && k < |b.bos|
    ensures b.submitBos[k].flags.read <==> ReadAsked(b.asked, b.bos[k])
    ensures b.submitBos[k].flags.write <==> WriteAsked(b.asked, b.bos[k])
  {
    UnionIsAny(b.asked, b.bos[k]);
  }

  // The end of etna_cmd_stream_reloc: entry i of the table, and a word for the kernel to patch
  function Relocated<B>(b: Batch<B>, bo: B, i: nat, relocOffset: nat): Batch<B> {
    b.(relocs := b.relocs + [SubmitReloc(Bytes(b.offset), i, relocOffset)],
       targets := b.targets + [bo], places := b.places + [b.offset], offset := b.offset + 1)
  }

  lemma RelocatedIsConsistent<B>(b: Batch<B>, bo: B, i: nat, relocOffset: nat)
    requires Consistent(b) && At(b.bos, i, bo) && b.offset < b.size
    ensures Consistent(Relocated(b, bo, i, relocOffset))
  {
  }

  // The end of etna_cmd_stream_perf
  function Measured<B>(b: Batch<B>, bo: B, p: SubmitPmr, i: nat): Batch<B> {
    b.(pmrs := b.pmrs + [p.(readIdx := i)], readers := b.readers + [bo])
  }

  lemma MeasuredIsConsistent<B>(b: Batch<B>, bo: B, p: SubmitPmr, i: nat)
    requires Consistent(b) && At(b.bos, i, bo)
    ensures Consistent(Measured(b, bo, p, i))
  {
  }

  // What goes to the kernel.
  datatype Submit = Submit(bos: seq<SubmitBo>, relocs: seq<SubmitReloc>, pmrs: seq<SubmitPmr>, words: seq<nat>)

  // What the kernel demands of it: relocations in order, inside the stream, and no index out of range.
  ghost predicate Acceptable(r: Submit) {
    && (forall j, k :: 0 <= j < k < |r.relocs| ==> r.relocs[j].submitOffset < r.relocs[k].submitOffset)
    && (forall k :: 0 <= k < |r.relocs| ==> r.relocs[k].relocIdx < |r.bos|)
    && (forall k :: 0 <= k < |r.relocs| ==> r.relocs[k].submitOffset + 4 <= 4 * |r.words|)
    && (forall k :: 0 <= k < |r.pmrs| ==> r.pmrs[k].readIdx < |r.bos|)
  }

  function Empty<B>(size: nat): Batch<B> {
    Batch([], [], [], [], [], [], [], [], 0, size)
  }
}

module CmdStream {
  import opened CmdTables

  // What a buffer knows: its references, and its index in the stream it was used in last.
  datatype Note = Note(refs: nat, current: Stream?, idx: nat, holders: set<Stream>)

  // All streams and buffers, as values.
  datatype View = View(tables: map<Stream, Batch<Bo>>, notes: map<Bo, Note>)

  // Tables and references agree: a stream holds a reference for each of its buffers ...
  ghost predicate Held(v: View) {
    && (forall s, b :: s in v.tables && b in v.tables[s].bos ==> b in v.notes && s in v.notes[b].holders)
    && (forall s, b :: b in v.notes && s in v.notes[b].holders ==> s in v.tables && b in v.tables[s].bos)
    && (forall b :: b in v.notes ==> |v.notes[b].holders| <= v.notes[b].refs)
  }

  // ... and an index that a buffer remembers is its place in the table.
  ghost predicate Remembered(v: View) {
    forall b :: b in v.notes && v.notes[b].current != null ==>
      v.notes[b].current in v.tables && At(v.tables[v.notes[b].current].bos, v.notes[b].idx, b)
  }

  // The two tables name the same buffers, entry by entry.
  ghost predicate Good(b: Batch<Bo>) {
    Consistent(b) && forall k :: 0 <= k < |b.bos| ==> b.submitBos[k].handle == b.bos[k].handle
  }

  ghost predicate Ok(v: View) {
    (forall s :: s in v.tables ==> Good(v.tables[s])) && Held(v) && Remembered(v)
  }

  // New streams and buffers fit in, and so do a caller's own references.
  lemma NewcomersAreOk(v: View, s: Stream, b: Batch<Bo>, bo: Bo)
    requires Ok(v) && s !in v.tables && bo !in v.notes && b == Empty(b.size)
    ensures Ok(v.(tables := v.tables[s := b]))
    ensures Ok(v.(notes := v.notes[bo := Note(1, null, 0, {})]))
  {
    NewStreamIsOk(v, s, b);
    NewBoIsOk(v, bo);
  }

  lemma NewStreamIsOk(v: View, s: Stream, b: Batch<Bo>)
    requires Ok(v) && s !in v.tables && b == Empty(b.size)
    ensures Ok(v.(tables := v.tables[s := b]))
  {
  }

  lemma NewBoIsOk(v: View, bo: Bo)
    requires Ok(v) && bo !in v.notes
    ensures Ok(v.(notes := v.notes[bo := Note(1, null, 0, {})]))
  {
  }

  // The buffer's note after its index in s was looked up.
  ghost function NowUsed(n: Note, s: Stream, known: bool, i: nat): Note {
    Note(n.refs + if known then 0 else 1, s, i, n.holders + {s})
  }

  // The fast path answers what the slow path would: a remembered index is the one a search finds.
  lemma RememberedIsSearched(v: View, bo: Bo)
    requires Ok(v) && bo in v.notes && v.notes[bo].current != null
    ensures v.notes[bo].current in v.tables && bo in v.tables[v.notes[bo].current].bos
    ensures v.notes[bo].idx == Search(v.tables[v.notes[bo].current].bos, bo)
  {
  }

  // No bit is cleared.
  predicate Keeps(before: SubmitBo, after: SubmitBo) {
    && after.handle == before.handle
    && (before.flags.read ==> after.flags.read) && (before.flags.write ==> after.flags.write)
  }

  // The request is on record, and no bit of any entry is cleared.
  ghost predicate Notes(b: Batch<Bo>, bo: Bo, flags: Access, b': Batch<Bo>) {
    && b'.asked == b.asked + [Ask(bo, flags)] && |b.submitBos| <= |b'.submitBos|
    && forall k :: 0 <= k < |b.submitBos| ==> Keeps(b.submitBos[k], b'.submitBos[k])
  }

  lemma RequestIsNoted(b: Batch<Bo>, bo: Bo, flags: Access, i: nat, b': Batch<Bo>)
    requires Good(b) && Requests(b, bo, flags, i, b')
    ensures Notes(b, bo, flags, b')
  {
  }

  // bo2idx on a stream's tables
  ghost predicate Requests(b: Batch<Bo>, bo: Bo, flags: Access, i: nat, b': Batch<Bo>) {
    && i == Search(Entered(b, bo, bo.handle).bos, bo)
    && i < |Entered(b, bo, bo.handle).submitBos|
    && b' == Asked(Entered(b, bo, bo.handle), bo, flags, i)
  }

  // etna_cmd_stream_reloc on a stream's tables
  ghost predicate RelocsTo(b: Batch<Bo>, bo: Bo, flags: Access, relocOffset: nat, b': Batch<Bo>) {
    var i, b1 := Search(Entered(b, bo, bo.handle).bos, bo), Entered(b, bo, bo.handle);
    i < |b1.submitBos| && b' == Relocated(Asked(b1, bo, flags, i), bo, i, relocOffset)
  }

  // etna_cmd_stream_perf on a stream's tables
  ghost predicate PerfTo(b: Batch<Bo>, bo: Bo, p: SubmitPmr, b': Batch<Bo>) {
    var i, b1 := Search(Entered(b, bo, bo.handle).bos, bo), Entered(b, bo, bo.handle);
    i < |b1.submitBos| && b' == Measured(Asked(b1, bo, Access(true, true), i), bo, p, i)
  }

  lemma AskedIsGood(b: Batch<Bo>, bo: Bo, flags: Access, i: nat)
    requires Good(b) && i == Search(Entered(b, bo, bo.handle).bos, bo)
    ensures i < |Entered(b, bo, bo.handle).submitBos| && At(Entered(b, bo, bo.handle).bos, i, bo)
    ensures Good(Asked(Entered(b, bo, bo.handle), bo, flags, i))
  {
    EnteredIsConsistent(b, bo, bo.handle);
    AskedIsConsistent(Entered(b, bo, bo.handle), bo, flags, i);
  }

  lemma RelocIsGood(b: Batch<Bo>, bo: Bo, flags: Access, relocOffset: nat, b': Batch<Bo>)
    requires Good(b) && b.offset < b.size && RelocsTo(b, bo, flags, relocOffset, b')
    ensures Good(b') && b'.bos == Entered(b, bo, bo.handle).bos
  {
    var b1, i := Entered(b, bo, bo.handle), Search(Entered(b, bo, bo.handle).bos, bo);
    AskedIsGood(b, bo, flags, i);
    RelocatedIsConsistent(Asked(b1, bo, flags, i), bo, i, relocOffset);
  }

  lemma PerfIsGood(b: Batch<Bo>, bo: Bo, p: SubmitPmr, b': Batch<Bo>)
    requires Good(b) && PerfTo(b, bo, p, b')
    ensures Good(b') && b'.bos == Entered(b, bo, bo.handle).bos
  {
    var b1, i := Entered(b, bo, bo.handle), Search(Entered(b, bo, bo.handle).bos, bo);
    AskedIsGood(b, bo, Access(true, true), i);
    MeasuredIsConsistent(Asked(b1, bo, Access(true, true), i), bo, p, i);
  }

  // What a relocation adds: one entry with the offset asked for, at the stream's place, naming the buffer;
  // the relocations before it and the other tables' entries stay.
  lemma RelocAddsItsOwn(b: Batch<Bo>, bo: Bo, flags: Access, relocOffset: nat, b': Batch<Bo>)
    requires Good(b) && RelocsTo(b, bo, flags, relocOffset, b')
    ensures |b'.relocs| == |b.relocs| + 1 && b'.relocs[..|b.relocs|] == b.relocs
    ensures b'.relocs[|b.relocs|].relocOffset == relocOffset
    ensures b'.relocs[|b.relocs|].submitOffset == (4 * b.offset) % 0x1_0000_0000
    ensures At(b'.bos, b'.relocs[|b.relocs|].relocIdx, bo)
    ensures b'.pmrs == b.pmrs && b.bos <= b'.bos && b'.offset == b.offset + 1
    ensures Notes(b, bo, flags, b')
  {
    RequestIsNoted(b, bo, flags, Search(Entered(b, bo, bo.handle).bos, bo),
                   Asked(Entered(b, bo, bo.handle), bo, flags, Search(Entered(b, bo, bo.handle).bos, bo)));
  }

  // ... and a performance request.
  lemma PerfAddsItsOwn(b: Batch<Bo>, bo: Bo, p: SubmitPmr, b': Batch<Bo>)
    requires Good(b) && PerfTo(b, bo, p, b')
    ensures |b'.pmrs| == |b.pmrs| + 1 && b'.pmrs[..|b.pmrs|] == b.pmrs
    ensures b'.pmrs[|b.pmrs|] == p.(readIdx := b'.pmrs[|b.pmrs|].readIdx)
    ensures At(b'.bos, b'.pmrs[|b.pmrs|].readIdx, bo)
    ensures b'.relocs == b.relocs && b.bos <= b'.bos && b'.offset == b.offset
    ensures Notes(b, bo, Access(true, true), b')
  {
    RequestIsNoted(b, bo, Access(true, true), Search(Entered(b, bo, bo.handle).bos, bo),
                   Asked(Entered(b, bo, bo.handle), bo, Access(true, true), Search(Entered(b, bo, bo.handle).bos, bo)));
  }

  // Stream s used buffer bo, and is b now.
  ghost function Requested(v: View, s: Stream, bo: Bo, b: Batch<Bo>): View
    requires s in v.tables && bo in v.notes
  {
    View(v.tables[s := b], v.notes[bo := NowUsed(v.notes[bo], s, bo in v.tables[s].bos, Search(b.bos, bo))])
  }

  lemma RequestedIsOk(v: View, s: Stream, bo: Bo, b: Batch<Bo>)
    requires Ok(v) && s in v.tables && bo in v.notes && Good(b)
    requires b.bos == Entered(v.tables[s], bo, bo.handle).bos
    ensures Ok(Requested(v, s, bo, b))
  {
    EnteredIsConsistent(v.tables[s], bo, bo.handle);
    RequestedIsHeld(v, s, bo, b);
  }

  lemma RequestedIsHeld(v: View, s: Stream, bo: Bo, b: Batch<Bo>)
    requires Held(v) && s in v.tables && bo in v.notes
    requires b.bos == Entered(v.tables[s], bo, bo.handle).bos
    ensures Held(Requested(v, s, bo, b))
  {
  }

  // The end of flush, and reset_buffer
  ghost function Flushed(v: View, s: Stream): View
    requires s in v.tables
  {
    View(v.tables[s := Empty(v.tables[s].size)],
         map b | b in v.notes :: NoteAfter(v.notes, b, s, b in v.tables[s].bos))
  }

  ghost function NoteAfter(notes: map<Bo, Note>, b: Bo, s: Stream, dropped: bool): Note
    requires b in notes
  {
    var n := notes[b];
    if dropped then Note(if n.refs == 0 then 0 else n.refs - 1, null, n.idx, n.holders - {s}) else n
  }

  // The references that callers hold.
  ghost function Own(n: Note): int {
    n.refs - |n.holders|
  }

  // A stream takes one reference to each buffer it starts to use and no other ...
  lemma RequestTakesOne(v: View, s: Stream, bo: Bo, b: Batch<Bo>)
    requires Ok(v) && s in v.tables && bo in v.notes
    ensures var after := Requested(v, s, bo, b).notes;
      && after[bo].current == s && after[bo].holders == v.notes[bo].holders + {s}
      && (forall c :: c in v.notes ==> c in after && Own(after[c]) == Own(v.notes[c]))
      && (forall c :: c in v.notes && c != bo ==> after[c] == v.notes[c])
  {
  }

  // ... and a flush gives back just these, so that the callers' references are never touched.
  lemma FlushGivesBack(v: View, s: Stream)
    requires Ok(v) && s in v.tables
    ensures var after := Flushed(v, s).notes;
      && (forall c :: c in v.notes ==> c in after && Own(after[c]) == Own(v.notes[c]))
      && (forall c :: c in v.notes ==> after[c].holders == v.notes[c].holders - {s})
      && (forall c :: c in v.notes && s in v.notes[c].holders ==> after[c].current == null)
      && (forall c :: c in v.notes && s !in v.notes[c].holders ==> after[c] == v.notes[c])
  {
    forall c | c in v.notes
      ensures Own(Flushed(v, s).notes[c]) == Own(v.notes[c])
    {
      GivesOneBack(v, s, c);
    }
  }

  lemma GivesOneBack(v: View, s: Stream, c: Bo)
    requires Ok(v) && s in v.tables && c in v.notes
    ensures var n := NoteAfter(v.notes, c, s, c in v.tables[s].bos);
      Own(n) == Own(v.notes[c]) && n.holders == v.notes[c].holders - {s}
  {
    if c in v.tables[s].bos {
      assert |v.notes[c].holders| == |v.notes[c].holders - {s}| + 1;
    }
  }

  function SubmitOf(b: Batch<Bo>, words: seq<nat>): Submit
    requires b.offset <= |words|
  {
    Submit(b.submitBos, b.relocs, b.pmrs, words[..b.offset])
  }

  lemma SubmitIsAcceptable(b: Batch<Bo>, words: seq<nat>)
    requires Good(b) && b.size == |words|
    ensures b.size <= 0x4000_0000 ==> Acceptable(SubmitOf(b, words))
  {
    if b.size <= 0x4000_0000 {
      forall k | 0 <= k < |b.relocs|
        ensures b.relocs[k].submitOffset == 4 * b.places[k] && b.places[k] < b.offset
        ensures b.relocs[k].relocIdx < |b.bos|
      {
        BytesAreExact(b.places[k]);
      }
    }
  }

  lemma FlushedIsOk(v: View, s: Stream)
    requires Ok(v) && s in v.tables
    ensures Ok(Flushed(v, s))
  {
    FlushedIsHeld(v, s);
    FlushedIsRemembered(v, s);
  }

  lemma FlushedIsHeld(v: View, s: Stream)
    requires Held(v) && s in v.tables
    ensures Held(Flushed(v, s))
  {
  }

  lemma FlushedIsRemembered(v: View, s: Stream)
    requires Remembered(v) && s in v.tables
    ensures Remembered(Flushed(v, s))
  {
  }

  class Bo {
    const handle: nat
    var refs: nat
    var current: Stream?
    var idx: nat
    ghost var holders: set<Stream>     // the streams with a reference

    constructor (h: nat)
      ensures handle == h && Now() == Note(1, null, 0, {})
    {
      handle, refs, current, idx, holders := h, 1, null, 0, {};
    }

    ghost function Now(): Note
      reads this
    {
      Note(refs, current, idx, holders)
    }
  }

  class Stream {
    const size: nat
    const buffer: array<nat>
    var offset: nat
    var submitBos: seq<SubmitBo>
    var relocs: seq<SubmitReloc>
    var pmrs: seq<SubmitPmr>
    var bos: seq<Bo>
    ghost var asked: seq<Ask<Bo>>
    ghost var targets: seq<Bo>
    ghost var places: seq<nat>
    ghost var readers: seq<Bo>

    constructor (words: nat)
      requires 0 < words < TWO_32 - 1
      ensures Now() == Empty(size) && fresh(buffer)
      ensures size == buffer.Length && words <= size <= words + 1 && size % 2 == 0
    {
      size := words + words % 2;
      buffer := new nat[words + words % 2];
      offset, submitBos, relocs, pmrs, bos := 0, [], [], [], [];
      asked, targets, places, readers := [], [], [], [];
    }

    ghost function Now(): Batch<Bo>
      reads this
    {
      Batch(submitBos, bos, relocs, pmrs, asked, targets, places, readers, offset, size)
    }

    // append_bo
    method AppendBo(bo: Bo) returns (i: nat)
      requires bo !in bos
      modifies this`submitBos, this`bos, bo`refs, bo`holders
      ensures Now() == Entered(old(Now()), bo, bo.handle) && i == |old(bos)|
      ensures bo.refs == old(bo.refs) + 1 && bo.holders == old(bo.holders) + {this}
    {
      submitBos := submitBos + [SubmitBo(NONE, bo.handle)];
      i := |bos|;
      bos := bos + [bo];
      bo.refs := bo.refs + 1;                      // etna_bo_ref
      bo.holders := bo.holders + {this};
    }

    // The locked part of bo2idx: whichever way the index is found, it is the one a search finds.
    method FindIdx(bo: Bo) returns (i: nat)
      requires Distinct(bos) && (bo.current == this ==> At(bos, bo.idx, bo)) && (bo in bos <==> this in bo.holders)
      modifies this`submitBos, this`bos, bo
      ensures i == Search(bos, bo) && At(bos, i, bo)
      ensures Now() == Entered(old(Now()), bo, bo.handle)
      ensures bo.Now() == NowUsed(old(bo.Now()), this, bo in old(bos), i)
    {
      if bo.current == this {
        i := bo.idx;
      } else {
        i := 0;
        while i < |bos| && bos[i] != bo
          invariant i <= |bos| && forall k :: 0 <= k < i ==> bos[k] != bo
        {
          i := i + 1;
        }
        if i == |bos| {
          i := AppendBo(bo);
        }
        bo.current := this;
        bo.idx := i;
      }
      SearchIsUnique(bos, bo, i);
    }

    // bo2idx
    method Bo2Idx(bo: Bo, flags: Access) returns (i: nat)
      requires Good(Now())
      requires (bo.current == this ==> At(bos, bo.idx, bo)) && (bo in bos <==> this in bo.holders)
      modifies this`submitBos, this`bos, this`asked, bo
      ensures Good(Now()) && At(bos, i, bo)
      ensures Requests(old(Now()), bo, flags, i, Now())
      ensures Notes(old(Now()), bo, flags, Now())
      ensures bo.Now() == NowUsed(old(bo.Now()), this, bo in old(bos), i)
    {
      ghost var b := Now();
      EnteredIsConsistent(b, bo, bo.handle);
      i := FindIdx(bo);
      ghost var b' := Now();
      AskedIsConsistent(b', bo, flags, i);
      RequestIsNoted(b, bo, flags, i, Asked(b', bo, flags, i));
      AddFlags(bo, i, flags);
    }

    // The flags of entry i become the union with those asked for.
    method AddFlags(ghost bo: Bo, i: nat, flags: Access)
      requires i < |submitBos|
      modifies this`submitBos, this`asked
      ensures Now() == Asked(old(Now()), bo, flags, i)
    {
      var all := submitBos[i].flags;
      if flags.read {
        all := all.(read := true);
      }
      if flags.write {
        all := all.(write := true);
      }
      submitBos := submitBos[i := submitBos[i].(flags := all)];
      asked := asked + [Ask(bo, flags)];
    }

    // etna_cmd_stream_emit; the caller has reserved the room.
    method Emit(data: nat)
      requires offset < size == buffer.Length
      modifies this`offset, buffer
      ensures offset == old(offset) + 1
      ensures buffer[..] == old(buffer[..])[old(offset) := data]
    {
      buffer[offset] := data;
      offset := offset + 1;
    }

    // etna_cmd_stream_reloc
    method Reloc(ghost w: World, bo: Bo, flags: Access, relocOffset: nat)
      requires Ok(w.Now()) && this in w.streams && bo in w.bos && offset < size == buffer.Length
      modifies this, buffer, bo
      ensures RelocsTo(old(Now()), bo, flags, relocOffset, Now())
      ensures buffer[..] == old(buffer[..])[old(offset) := 0]
      ensures Ok(w.Now()) && w.Now() == Requested(old(w.Now()), this, bo, Now())
    {
      ghost var v := w.Snapshot();
      w.Lookup(this, bo);
      RelocHere(bo, flags, relocOffset);
      w.SettleReloc(v, this, bo, flags, relocOffset);
    }

    // etna_cmd_stream_perf: the buffer will be both read and written.
    method Perf(ghost w: World, bo: Bo, p: SubmitPmr)
      requires Ok(w.Now()) && this in w.streams && bo in w.bos
      modifies this, bo
      ensures PerfTo(old(Now()), bo, p, Now())
      ensures Ok(w.Now()) && w.Now() == Requested(old(w.Now()), this, bo, Now())
    {
      ghost var v := w.Snapshot();
      w.Lookup(this, bo);
      PerfHere(bo, p);
      w.SettlePerf(v, this, bo, p);
    }

    method RelocHere(bo: Bo, flags: Access, relocOffset: nat)
      requires Good(Now()) && offset < size == buffer.Length
      requires (bo.current == this ==> At(bos, bo.idx, bo)) && (bo in bos <==> this in bo.holders)
      modifies this, buffer, bo
      ensures RelocsTo(old(Now()), bo, flags, relocOffset, Now())
      ensures buffer[..] == old(buffer[..])[old(offset) := 0]
      ensures bo.Now() == NowUsed(old(bo.Now()), this, bo in old(bos), Search(bos, bo))
    {
      var i := Bo2Idx(bo, flags);
      AddReloc(bo, i, relocOffset);
    }

    method PerfHere(bo: Bo, p: SubmitPmr)
      requires Good(Now())
      requires (bo.current == this ==> At(bos, bo.idx, bo)) && (bo in bos <==> this in bo.holders)
      modifies this, bo
      ensures PerfTo(old(Now()), bo, p, Now())
      ensures bo.Now() == NowUsed(old(bo.Now()), this, bo in old(bos), Search(bos, bo))
    {
      var i := Bo2Idx(bo, Access(true, true));
      AddPmr(bo, p, i);
    }

    method AddPmr(ghost bo: Bo, p: SubmitPmr, i: nat)
      modifies this`pmrs, this`readers
      ensures Now() == Measured(old(Now()), bo, p, i)
    {
      pmrs := pmrs + [p.(readIdx := i)];
      readers := readers + [bo];
    }

    method AddReloc(ghost bo: Bo, i: nat, relocOffset: nat)
      requires offset < size == buffer.Length
      modifies this`relocs, this`targets, this`places, this`offset, buffer
      ensures Now() == Relocated(old(Now()), bo, i, relocOffset)
      ensures buffer[..] == old(buffer[..])[old(offset) := 0]
    {
      relocs := relocs + [SubmitReloc(Bytes(offset), i, relocOffset)];
      targets, places := targets + [bo], places + [offset];
      Emit(0);
    }

    // The loop of flush: every buffer forgets its index, even one remembered for another stream, and
    // loses the stream's reference.
    method ReleaseBos(ghost notes: map<Bo, Note>)
      requires Distinct(bos) && forall b :: b in bos ==> b in notes && notes[b].refs > 0
      requires forall b :: b in notes ==> b.Now() == notes[b]
      modifies bos
      ensures forall b :: b in notes ==> b.Now() == NoteAfter(notes, b, this, b in bos)
    {
      var i := 0;
      while i < |bos|
        invariant i <= |bos|
        invariant forall b :: b in notes ==> b.Now() == NoteAfter(notes, b, this, b in bos[..i])
      {
        var bo := bos[i];
        assert bo !in bos[..i] && bos[..i + 1] == bos[..i] + [bo];
        Release(bo);
        i := i + 1;
      }
      assert bos[..|bos|] == bos;
    }

    method Release(bo: Bo)
      requires bo.refs > 0
      modifies bo
      ensures bo.Now() == Note(old(bo.refs) - 1, null, bo.idx, old(bo.holders) - {this}) && bo.idx == old(bo.idx)
    {
      bo.current := null;
      bo.refs := bo.refs - 1;                      // etna_bo_del
      bo.holders := bo.holders - {this};
    }

    // etna_cmd_stream_flush: what is submitted, and how everything is left.
    method Flush(ghost w: World) returns (req: Submit)
      requires Ok(w.Now()) && this in w.streams && size == buffer.Length
      modifies this, bos
      ensures old(offset) <= size && req == Submit(old(submitBos), old(relocs), old(pmrs), old(buffer[..offset]))
      ensures size <= 0x4000_0000 ==> Acceptable(req)
      ensures Ok(w.Now()) && w.Now() == Flushed(old(w.Now()), this)
    {
      w.TableOf(this);
      req := Submit(submitBos, relocs, pmrs, buffer[..offset]);
      assert buffer[..][..offset] == buffer[..offset];
      SubmitIsAcceptable(Now(), buffer[..]);
      EmptyTables(w);
    }

    method EmptyTables(ghost w: World)
      requires Ok(w.Now()) && this in w.streams
      modifies this`offset, this`submitBos, this`relocs, this`pmrs, this`bos
      modifies this`asked, this`targets, this`places, this`readers, bos
      ensures Ok(w.Now()) && w.Now() == Flushed(old(w.Now()), this)
    {
      ghost var v := w.Now();
      w.AllHeld(this);
      ReleaseBos(v.notes);
      ResetBuffer();
      w.SettleFlush(v, this);
    }

    method ResetBuffer()
      modifies this`offset, this`submitBos, this`relocs, this`pmrs, this`bos
      modifies this`asked, this`targets, this`places, this`readers
      ensures Now() == Empty(size)
    {
      offset, submitBos, relocs, pmrs, bos := 0, [], [], [], [];
      asked, targets, places, readers := [], [], [], [];
    }

    // etna_cmd_stream_reserve.  Afterwards there is room for n words and the clearance exactly if
    // the clearance was intact before and the stream is large enough at all.
    method Reserve(ghost w: World, n: nat) returns (flushed: bool)
      requires Ok(w.Now()) && this in w.streams && size == buffer.Length < TWO_32
      modifies this, bos
      ensures flushed <==> old(Avail()) < n
      ensures Ok(w.Now()) && w.Now() == if flushed then Flushed(old(w.Now()), this) else old(w.Now())
      ensures offset + n + END_CLEARANCE <= size <==> old(offset) + END_CLEARANCE <= size && n + END_CLEARANCE <= size
    {
      w.TableOf(this);
      RoomFor(size, offset, n);
      if Avail() >= n {
        return false;
      }
      var req := Flush(w);
      w.TableOf(this);
      flushed := true;
    }

    function Avail(): nat
      reads this
    {
      (size - offset - END_CLEARANCE) % TWO_32
    }
  }

  datatype World = World(streams: set<Stream>, bos: set<Bo>) {
    ghost function Now(): View
      reads streams, bos
    {
      View(map s | s in streams :: s.Now(), map b | b in bos :: b.Now())
    }

    lemma Snapshot() returns (v: View)
      ensures v == Now() && v.tables.Keys == streams && v.notes.Keys == bos
      ensures forall t :: t in streams ==> v.tables[t] == t.Now()
      ensures forall b :: b in bos ==> v.notes[b] == b.Now()
    {
      v := Now();
    }

    // Only stream s and buffer bo have changed since v, by a request.
    lemma Settle(v: View, s: Stream, bo: Bo)
      requires s in streams && bo in bos && Ok(v)
      requires v.tables.Keys == streams && v.notes.Keys == bos
      requires forall t :: t in streams && t != s ==> t.Now() == v.tables[t]
      requires forall b :: b in bos && b != bo ==> b.Now() == v.notes[b]
      requires Good(s.Now()) && s.bos == Entered(v.tables[s], bo, bo.handle).bos
      requires bo.Now() == NowUsed(v.notes[bo], s, bo in v.tables[s].bos, Search(s.bos, bo))
      ensures Ok(Now()) && Now() == Requested(v, s, bo, s.Now())
    {
      Changed(v, s, bo);
      RequestedIsOk(v, s, bo, s.Now());
    }

    lemma SettleReloc(v: View, s: Stream, bo: Bo, flags: Access, relocOffset: nat)
      requires s in streams && bo in bos && Ok(v)
      requires v.tables.Keys == streams && v.notes.Keys == bos && v.tables[s].offset < v.tables[s].size
      requires forall t :: t in streams && t != s ==> t.Now() == v.tables[t]
      requires forall b :: b in bos && b != bo ==> b.Now() == v.notes[b]
      requires RelocsTo(v.tables[s], bo, flags, relocOffset, s.Now())
      requires bo.Now() == NowUsed(v.notes[bo], s, bo in v.tables[s].bos, Search(s.bos, bo))
      ensures Ok(Now()) && Now() == Requested(v, s, bo, s.Now())
    {
      RelocIsGood(v.tables[s], bo, flags, relocOffset, s.Now());
      Settle(v, s, bo);
    }

    lemma SettlePerf(v: View, s: Stream, bo: Bo, p: SubmitPmr)
      requires s in streams && bo in bos && Ok(v)
      requires v.tables.Keys == streams && v.notes.Keys == bos
      requires forall t :: t in streams && t != s ==> t.Now() == v.tables[t]
      requires forall b :: b in bos && b != bo ==> b.Now() == v.notes[b]
      requires PerfTo(v.tables[s], bo, p, s.Now())
      requires bo.Now() == NowUsed(v.notes[bo], s, bo in v.tables[s].bos, Search(s.bos, bo))
      ensures Ok(Now()) && Now() == Requested(v, s, bo, s.Now())
    {
      PerfIsGood(v.tables[s], bo, p, s.Now());
      Settle(v, s, bo);
    }

    lemma Changed(v: View, s: Stream, bo: Bo)
      requires s in streams && bo in bos
      requires v.tables.Keys == streams && v.notes.Keys == bos
      requires forall t :: t in streams && t != s ==> t.Now() == v.tables[t]
      requires forall b :: b in bos && b != bo ==> b.Now() == v.notes[b]
      ensures Now() == View(v.tables[s := s.Now()], v.notes[bo := bo.Now()])
    {
    }

    lemma SettleFlush(v: View, s: Stream)
      requires s in streams && Ok(v)
      requires v.tables.Keys == streams && v.notes.Keys == bos && v.tables[s].size == s.size
      requires forall t :: t in streams && t != s ==> t.Now() == v.tables[t]
      requires s.Now() == Empty(s.size)
      requires forall b :: b in bos ==> b.Now() == NoteAfter(v.notes, b, s, b in v.tables[s].bos)
      ensures Ok(Now()) && Now() == Flushed(v, s)
    {
      FlushedIsOk(v, s);
      Emptied(v, s);
    }

    lemma Emptied(v: View, s: Stream)
      requires s in streams && v.tables.Keys == streams && v.notes.Keys == bos
      requires forall t :: t in streams && t != s ==> t.Now() == v.tables[t]
      requires s.Now() == Empty(v.tables[s].size)
      requires forall b :: b in bos ==> b.Now() == NoteAfter(v.notes, b, s, b in v.tables[s].bos)
      ensures Now() == Flushed(v, s)
    {
    }

    lemma TableOf(s: Stream)
      requires Ok(Now()) && s in streams
      ensures Now().tables[s] == s.Now() && Good(s.Now())
      ensures forall b :: b in s.bos ==> b in bos
    {
      var v := Now();
      assert forall b :: b in v.tables[s].bos ==> b in v.notes;
    }

    // Every buffer in a table has a reference to give back.
    lemma AllHeld(s: Stream)
      requires Ok(Now()) && s in streams
      ensures Now().tables[s] == s.Now() && Distinct(s.bos)
      ensures forall b :: b in s.bos ==> b in Now().notes && Now().notes[b].refs > 0
    {
    }

    lemma Lookup(s: Stream, bo: Bo)
      requires Ok(Now()) && s in streams && bo in bos
      ensures Now().tables[s] == s.Now() && Now().notes[bo] == bo.Now()
      ensures Good(s.Now()) && (bo.current == s ==> At(s.bos, bo.idx, bo)) && (bo in s.bos <==> s in bo.holders)
    {
    }
  }
}
