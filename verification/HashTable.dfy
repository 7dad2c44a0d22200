/**
 The self-organising hash table of xf86drmHash.c.

 Keys are spread over 512 chains.  Every successful search moves the bucket it finds to the head of
 its chain, which is what deletion relies on, and which keeps each chain in the order in which its
 keys were touched last.
 */
module Scattering {
  import Random

  const HASH_SIZE := 512
  const TWO_64 := 0x1_0000_0000_0000_0000

  // The n-th number of the generator that was seeded with 37.
  function After(n: nat): nat {
    Random.Nth(37, n)
  }

  function Fold(hash: nat, key: nat): nat
    decreases key
  {
    if key == 0 then hash else Fold((2 * hash + After(key % 256 + 1)) % TWO_64, key / 256)
  }

  function HashOf(key: nat): (h: nat)
    ensures h < HASH_SIZE
  {
    Fold(0, key) % HASH_SIZE
  }

  function Power2(n: nat): nat {
    if n == 0 then 1 else 2 * Power2(n - 1)
  }

  function Length(key: nat): nat {
    if key == 0 then 0 else 1 + Length(key / 256)
  }

  // The numbers for the key's bytes, each doubled once for every byte above it.
  function Weighted(key: nat): nat {
    if key == 0 then 0 else Random.Nth(37, key % 256 + 1) * Power2(Length(key / 256)) + Weighted(key / 256)
  }

  // The chain of a key is this sum modulo the number of chains: no wrap of `hash` can be noticed.
  lemma HashIsWeightedSum(key: nat)
    ensures HashOf(key) == Weighted(key) % HASH_SIZE
    ensures key < 256 ==> HashOf(key) == if key == 0 then 0 else Random.Nth(37, key + 1) % HASH_SIZE
  {
    FoldIsSum(0, key);
    if 0 < key < 256 {
      assert key / 256 == 0 && Power2(0) == 1 && Weighted(0) == 0 && Length(0) == 0;
    }
  }

  lemma {:induction false} FoldIsSum(hash: nat, key: nat)
    ensures Fold(hash, key) % HASH_SIZE == (hash * Power2(Length(key)) + Weighted(key)) % HASH_SIZE
    decreases key
  {
    if key == 0 {
      assert hash * Power2(Length(key)) + Weighted(key) == hash;
    } else {
      var n, rest := After(key % 256 + 1), key / 256;
      FoldIsSum((2 * hash + n) % TWO_64, rest);
      OneByte(hash, n, Power2(Length(rest)), Weighted(rest));
    }
  }

  lemma OneByte(hash: nat, n: nat, p: nat, w: nat)
    ensures (((2 * hash + n) % TWO_64) * p + w) % HASH_SIZE == (hash * (2 * p) + (n * p + w)) % HASH_SIZE
  {
    Spread(hash, n, p);
    WrapUnnoticed(2 * hash + n, p, w);
  }

  lemma Spread(hash: nat, n: nat, p: nat)
    ensures (2 * hash + n) * p == hash * (2 * p) + n * p
  {
  }

  lemma WrapUnnoticed(sum: nat, p: nat, w: nat)
    ensures ((sum % TWO_64) * p + w) % HASH_SIZE == (sum * p + w) % HASH_SIZE
  {
    var t := sum / TWO_64;
    Split(sum % TWO_64, t, p);
    SameRest((sum % TWO_64) * p + w, TWO_64 / HASH_SIZE * (t * p));
  }

  lemma Split(r: nat, t: nat, p: nat)
    ensures (r + TWO_64 * t) * p == r * p + HASH_SIZE * (TWO_64 / HASH_SIZE * (t * p))
  {
    assert (TWO_64 * t) * p == TWO_64 * (t * p);
  }

  lemma SameRest(x: nat, c: nat)
    ensures (x + HASH_SIZE * c) % HASH_SIZE == x % HASH_SIZE
  {
  }

  // The table of random numbers HashHash makes when it is first called.
  method Scatter() returns (scatter: seq<nat>)
    ensures |scatter| == 256 && forall i :: 0 <= i < 256 ==> scatter[i] == After(i + 1)
  {
    var state := new Random.State(37);
    assert Random.Legal(37);
    scatter := [];
    while |scatter| < 256
      invariant |scatter| <= 256 && state.Valid() && fresh(state) && state.seed == After(|scatter|)
      invariant forall i :: 0 <= i < |scatter| ==> scatter[i] == After(i + 1)
    {
      var v := state.Next();
      scatter := scatter + [v];
    }
  }

  // HashHash, a byte of the key at a time
  method HashHash(scatter: seq<nat>, key: nat) returns (hash: nat)
    requires |scatter| == 256 && forall i :: 0 <= i < 256 ==> scatter[i] == After(i + 1)
    ensures hash == HashOf(key)
  {
    var tmp := key;
    hash := 0;
    while tmp != 0
      invariant Fold(hash, tmp) == Fold(0, key)
    {
      hash := (2 * hash + scatter[tmp % 256]) % TWO_64;
      tmp := tmp / 256;
    }
    hash := hash % HASH_SIZE;
  }
}

module Chains {
  import opened Options

  class Bucket {
    const key: nat
    const value: nat
    var next: Bucket?

    constructor (k: nat, v: nat, n: Bucket?)
      ensures key == k && value == v && next == n
    {
      key, value, next := k, v, n;
    }
  }

  // ----- a chain as a value -----

  function Find(c: seq<Bucket>, k: nat): Option<nat> {
    if c == [] then None else if c[0].key == k then Some(c[0].value) else Find(c[1..], k)
  }

  ghost predicate DistinctKeys(c: seq<Bucket>) {
    forall i, j :: 0 <= i < j < |c| ==> c[i].key != c[j].key
  }

  // bucket i moves to the head
  function ToFront(c: seq<Bucket>, i: nat): seq<Bucket>
    requires i < |c|
  {
    [c[i]] + c[..i] + c[i + 1..]
  }

  lemma {:induction false} FindAt(c: seq<Bucket>, i: nat)
    requires i < |c| && DistinctKeys(c)
    ensures Find(c, c[i].key) == Some(c[i].value)
  {
    if i > 0 {
      FindAt(c[1..], i - 1);
    }
  }

  lemma {:induction false} FindNone(c: seq<Bucket>, k: nat)
    ensures Find(c, k) == None <==> forall i :: 0 <= i < |c| ==> c[i].key != k
  {
    if c != [] {
      FindNone(c[1..], k);
    }
  }

  // What is found depends only on which buckets are in the chain.
  lemma FindIsOrderless(c: seq<Bucket>, d: seq<Bucket>, k: nat)
    requires DistinctKeys(c) && DistinctKeys(d) && forall b :: b in c <==> b in d
    ensures Find(c, k) == Find(d, k)
  {
    FindNone(c, k);
    FindNone(d, k);
    if i :| 0 <= i < |c| && c[i].key == k {
      assert c[i] in d;
      var j :| 0 <= j < |d| && d[j] == c[i];
      FindAt(c, i);
      FindAt(d, j);
    } else {
      assert forall j :: 0 <= j < |d| ==> d[j] in c;
    }
  }

  lemma ToFrontKeeps(c: seq<Bucket>, i: nat)
    requires i < |c| && DistinctKeys(c)
    ensures DistinctKeys(ToFront(c, i)) && |ToFront(c, i)| == |c|
    ensures forall b :: b in ToFront(c, i) <==> b in c
    ensures forall k :: Find(ToFront(c, i), k) == Find(c, k)
  {
    var d := ToFront(c, i);
    assert c == c[..i] + [c[i]] + c[i + 1..];
    forall j | 0 <= j < |d|
      ensures d[j] == c[if j == 0 then i else if j <= i then j - 1 else j]
    {
    }
    forall k
      ensures Find(d, k) == Find(c, k)
    {
      FindIsOrderless(c, d, k);
    }
  }

  // ----- the order of last touches -----

  // Buckets nearer the head were touched later.
  ghost predicate RecentFirst(c: seq<Bucket>, touched: map<nat, nat>, clock: nat) {
    && (forall i :: 0 <= i < |c| ==> c[i].key in touched && touched[c[i].key] < clock)
    && (forall i, j :: 0 <= i < j < |c| ==> touched[c[i].key] > touched[c[j].key])
  }

  lemma TouchedFirst(c: seq<Bucket>, i: nat, touched: map<nat, nat>, clock: nat)
    requires i < |c| && DistinctKeys(c) && RecentFirst(c, touched, clock)
    ensures RecentFirst(ToFront(c, i), touched[c[i].key := clock], clock + 1)
  {
  }

  lemma UntouchedChain(c: seq<Bucket>, k: nat, touched: map<nat, nat>, clock: nat)
    requires RecentFirst(c, touched, clock) && forall i :: 0 <= i < |c| ==> c[i].key != k
    ensures RecentFirst(c, touched[k := clock], clock + 1)
  {
  }

  // ----- a chain in memory -----

  function At(c: seq<Bucket>, i: nat): Bucket? {
    if i < |c| then c[i] else null
  }

  lemma LinksAt(c: seq<Bucket>, head: Bucket?)
    requires Links(c, head)
    ensures head == At(c, 0) && forall i {:trigger c[i].next} :: 0 <= i < |c| ==> c[i].next == At(c, i + 1)
  {
  }

  lemma LinksRest(c: seq<Bucket>, head: Bucket, next: Bucket?)
    requires Links(c, head) && c != [] && next == c[0].next
    ensures Links(c[1..], next)
  {
  }

  ghost predicate Links(c: seq<Bucket>, head: Bucket?)
    reads c
  {
    head == At(c, 0) && forall i {:trigger c[i].next} :: 0 <= i < |c| ==> c[i].next == At(c, i + 1)
  }
}

module HashTable {
  import opened Options
  import opened Scattering
  import opened Chains

  // The table as a value: `touched` says when, by a clock that counts touches, each key was touched last.
  datatype Image = Image(chains: seq<seq<Bucket>>, view: map<nat, nat>, touched: map<nat, nat>, clock: nat)

  // Each key is in its own chain, once, the chain is in the order of last touches,
  // and the chains together hold exactly the bindings of a map.
  ghost predicate Proper(hash: nat -> nat, t: Image) {
    match t
    case Image(chains, view, touched, clock) =>
      && |chains| == HASH_SIZE && (forall k: nat :: hash(k) < HASH_SIZE)
      && (forall h :: 0 <= h < |chains| ==> ProperChain(hash, chains[h], h, touched, clock))
      && (forall k: nat :: Find(chains[hash(k)], k) == Binding(view, k))
  }

  ghost predicate ProperChain(hash: nat -> nat, c: seq<Bucket>, h: nat, touched: map<nat, nat>, clock: nat) {
    DistinctKeys(c) && RecentFirst(c, touched, clock) && forall i :: 0 <= i < |c| ==> hash(c[i].key) == h
  }

  function Binding(view: map<nat, nat>, k: nat): Option<nat> {
    if k in view then Some(view[k]) else None
  }

  // Chains have no bucket in common.
  lemma AllApart(hash: nat -> nat, chains: seq<seq<Bucket>>, view: map<nat, nat>, touched: map<nat, nat>,
    clock: nat, h: nat)
    requires Proper(hash, Image(chains, view, touched, clock)) && h < HASH_SIZE
    ensures forall g, b :: 0 <= g < |chains| && g != h && b in chains[g] ==> b !in chains[h]
  {
  }

  lemma FoundIsProper(hash: nat -> nat, chains: seq<seq<Bucket>>, view: map<nat, nat>, touched: map<nat, nat>,
                      clock: nat, h: nat, i: nat)
    requires Proper(hash, Image(chains, view, touched, clock)) && h < HASH_SIZE && i < |chains[h]|
    ensures var b := chains[h][i];
      && Proper(hash, Image(chains[h := ToFront(chains[h], i)], view, touched[b.key := clock], clock + 1))
      && b.key in view && view[b.key] == b.value && hash(b.key) == h
  {
    var c, b := chains[h], chains[h][i];
    FindAt(c, i);
    ToFrontKeeps(c, i);
    TouchedFirst(c, i, touched, clock);
    assert forall j :: 0 <= j < |c| ==> ToFront(c, i)[j] in c;
    OthersStayProper(hash, chains, h, b.key, touched, clock);
  }

  // Touching a key of chain h does not disturb the others.
  lemma OthersStayProper(hash: nat -> nat, chains: seq<seq<Bucket>>, h: nat, k: nat, touched: map<nat, nat>, clock: nat)
    requires forall g :: 0 <= g < |chains| ==> ProperChain(hash, chains[g], g, touched, clock)
    requires hash(k) == h
    ensures forall g :: 0 <= g < |chains| && g != h ==> ProperChain(hash, chains[g], g, touched[k := clock], clock + 1)
  {
  }

  lemma NotFound(hash: nat -> nat, chains: seq<seq<Bucket>>, view: map<nat, nat>, touched: map<nat, nat>,
    clock: nat, k: nat)
    requires Proper(hash, Image(chains, view, touched, clock))
    requires forall i :: 0 <= i < |chains[hash(k)]| ==> chains[hash(k)][i].key != k
    ensures k !in view
  {
    FindNone(chains[hash(k)], k);
  }

  lemma InsertedIsProper(hash: nat -> nat, chains: seq<seq<Bucket>>, view: map<nat, nat>, touched: map<nat, nat>,
                         clock: nat, b: Bucket, after: seq<seq<Bucket>>, view': map<nat, nat>, touched': map<nat, nat>)
    requires Proper(hash, Image(chains, view, touched, clock)) && b.key !in view
    requires after == chains[hash(b.key) := [b] + chains[hash(b.key)]]
    requires view' == view[b.key := b.value] && touched' == touched[b.key := clock]
    ensures Proper(hash, Image(after, view', touched', clock + 1))
  {
    var h := hash(b.key);
    FindNone(chains[h], b.key);
    UntouchedChain(chains[h], b.key, touched, clock);
    OthersStayProper(hash, chains, h, b.key, touched, clock);
    FirstIsProper(hash, chains[h], b, h, touched', clock);
    assert ([b] + chains[h])[1..] == chains[h];
  }

  lemma FirstIsProper(hash: nat -> nat, c: seq<Bucket>, b: Bucket, h: nat, touched: map<nat, nat>, clock: nat)
    requires ProperChain(hash, c, h, touched, clock + 1) && hash(b.key) == h
    requires forall i :: 0 <= i < |c| ==> c[i].key != b.key && touched[c[i].key] < clock
    requires b.key in touched && touched[b.key] == clock
    ensures ProperChain(hash, [b] + c, h, touched, clock + 1)
  {
  }

  lemma DeletedIsProper(hash: nat -> nat, chains: seq<seq<Bucket>>, view: map<nat, nat>, touched: map<nat, nat>,
    clock: nat, h: nat)
    requires Proper(hash, Image(chains, view, touched, clock)) && h < HASH_SIZE && chains[h] != []
    ensures Proper(hash, Image(chains[h := chains[h][1..]], view - {chains[h][0].key}, touched, clock))
  {
    var c := chains[h];
    FindNone(c[1..], c[0].key);
    assert hash(c[0].key) == h;
  }

  class Table {
    ghost const hash: nat -> nat
    const scatter: seq<nat>
    const buckets: array<Bucket?>
    var hits: nat
    var partials: nat
    var misses: nat
    var p0: nat
    var p1: Bucket?
    ghost var chains: seq<seq<Bucket>>
    ghost var view: map<nat, nat>
    ghost var touched: map<nat, nat>
    ghost var clock: nat
    ghost var repr: set<Bucket>

    // drmHashCreate
    constructor ()
      ensures Valid() && Scatters() && view == map[] && fresh(buckets) && fresh(repr)
    {
      var numbers := Scatter();
      hash := (k: nat) => HashOf(k);
      scatter := numbers;
      buckets := new Bucket?[HASH_SIZE](_ => null);
      hits, partials, misses, p0, p1 := 0, 0, 0, 0, null;
      chains, view, touched, clock, repr := seq(HASH_SIZE, _ => []), map[], map[], 0, {};
    }

    ghost predicate Valid()
      reads this, buckets, repr
    {
      && buckets.Length == HASH_SIZE
      && Proper(hash, Image(chains, view, touched, clock)) && AllLinks(chains)
    }

    // HashHash computes `hash`.
    ghost predicate Scatters() {
      && |scatter| == 256 && (forall i :: 0 <= i < 256 ==> scatter[i] == After(i + 1))
      && (forall k: nat :: hash(k) == HashOf(k))
    }

    // The buckets are linked into these chains.
    ghost predicate AllLinks(cs: seq<seq<Bucket>>)
      reads this`repr, buckets, repr
    {
      && buckets.Length == |cs|
      && (forall h, b :: 0 <= h < |cs| && b in cs[h] ==> b in repr)
      && (forall h :: 0 <= h < |cs| ==> Links(cs[h], buckets[h]))
    }

    // The bucket found becomes the head of its chain.
    method MoveToHead(h: nat, prev: Bucket, bucket: Bucket, ghost i: nat)
      requires h < buckets.Length == |chains| && Links(chains[h], buckets[h]) && DistinctKeys(chains[h])
      requires 0 < i < |chains[h]| && prev == chains[h][i - 1] && bucket == chains[h][i]
      modifies buckets, prev, bucket
      ensures Links(ToFront(chains[h], i), buckets[h])
      ensures forall g :: 0 <= g < buckets.Length && g != h ==> buckets[g] == old(buckets[g])
    {
      ghost var c := chains[h];
      LinksAt(c, buckets[h]);
      prev.next := bucket.next;
      bucket.next := buckets[h];
      buckets[h] := bucket;
      ghost var d := ToFront(c, i);
      assert d[0] == c[i];
      forall j | 0 <= j < |d|
        ensures d[j].next == At(d, j + 1)
      {
        if j == 0 {
          assert d[1] == c[0];
        } else if j < i {
          assert d[j] == c[j - 1] && At(d, j + 1) == c[j];
        } else if j == i {
          assert d[j] == c[i - 1] && At(d, j + 1) == At(c, i + 1);
        } else {
          assert d[j] == c[j] && At(d, j + 1) == At(c, j + 1);
        }
      }
    }

    // The search of one chain, and its reorganisation: the bucket found becomes the head.
    method SearchChain(h: nat, key: nat) returns (bucket: Bucket?, ghost i: nat)
      requires h < buckets.Length == |chains| && Links(chains[h], buckets[h]) && DistinctKeys(chains[h])
      modifies buckets, chains[h], this`hits, this`partials, this`misses
      ensures bucket == null ==> forall j :: 0 <= j < |chains[h]| ==> chains[h][j].key != key
      ensures bucket != null ==> i < |chains[h]| && bucket == chains[h][i] && bucket.key == key
      ensures Links(if bucket == null then chains[h] else ToFront(chains[h], i), buckets[h])
      ensures forall g :: 0 <= g < buckets.Length && g != h ==> buckets[g] == old(buckets[g])
      ensures hits == old(hits) + (if bucket != null && i == 0 then 1 else 0)
      ensures partials == old(partials) + (if bucket != null && i > 0 then 1 else 0)
      ensures misses == old(misses) + (if bucket == null then 1 else 0)
    {
      var prev;
      prev, bucket, i := ScanChain(h, key);
      if bucket == null {
        misses := misses + 1;
      } else if prev != null {
        MoveToHead(h, prev, bucket, i);
        partials := partials + 1;
      } else {
        assert ToFront(chains[h], 0) == chains[h];
        hits := hits + 1;
      }
    }

    // The loop of HashFind: the bucket with the key, and the one before it.
    method ScanChain(h: nat, key: nat) returns (prev: Bucket?, bucket: Bucket?, ghost i: nat)
      requires h < buckets.Length == |chains| && Links(chains[h], buckets[h])
      ensures bucket == null ==> forall j :: 0 <= j < |chains[h]| ==> chains[h][j].key != key
      ensures bucket != null ==> i < |chains[h]| && bucket == chains[h][i] && bucket.key == key
      ensures bucket != null ==> prev == (if i == 0 then null else chains[h][i - 1])
    {
      ghost var c := chains[h];
      LinksAt(c, buckets[h]);
      prev, bucket, i := null, buckets[h], 0;
      while bucket != null && bucket.key != key
        invariant i <= |c| && bucket == At(c, i) && prev == (if i == 0 then null else c[i - 1])
        invariant forall j :: 0 <= j < i ==> c[j].key != key
        decreases |c| - i
      {
        prev := bucket;
        bucket := bucket.next;
        i := i + 1;
      }
    }

    // ... which leaves all the other chains alone.
    method Search(h: nat, key: nat) returns (bucket: Bucket?, ghost i: nat, ghost after: seq<seq<Bucket>>)
      requires AllLinks(chains) && h < |chains| && DistinctKeys(chains[h])
      requires forall g, b :: 0 <= g < |chains| && g != h && b in chains[g] ==> b !in chains[h]
      modifies buckets, repr, this`hits, this`partials, this`misses
      ensures AllLinks(after)
      ensures bucket == null ==> after == chains && forall j :: 0 <= j < |chains[h]| ==> chains[h][j].key != key
      ensures bucket != null ==> i < |chains[h]| && bucket == chains[h][i] && bucket.key == key
      ensures bucket != null ==> after == chains[h := ToFront(chains[h], i)]
      ensures misses == old(misses) + (if bucket == null then 1 else 0)
      ensures hits == old(hits) + (if bucket != null && i == 0 then 1 else 0)
      ensures partials == old(partials) + (if bucket != null && i > 0 then 1 else 0)
    {
      ghost var c := chains[h];
      bucket, i := SearchChain(h, key);
      forall g | 0 <= g < |chains| && g != h
        ensures Links(chains[g], buckets[g])
      {
        assert forall b :: b in chains[g] ==> b !in c;
        assert forall b :: b in chains[g] ==> b.next == old(b.next);
        assert old(Links(chains[g], buckets[g]));
      }
      ghost var d := if bucket != null then ToFront(c, i) else c;
      if bucket != null { ToFrontKeeps(c, i); }
      after := chains[h := d];
      Relinked(chains, h, d, after);
    }

    // Chain h has changed, within the buckets of the table.
    lemma Relinked(cs: seq<seq<Bucket>>, h: nat, c: seq<Bucket>, after: seq<seq<Bucket>>)
      requires buckets.Length == |cs| && h < |cs|
      requires forall g, b :: 0 <= g < |cs| && b in cs[g] ==> b in repr
      requires forall g :: 0 <= g < |cs| && g != h ==> Links(cs[g], buckets[g])
      requires forall b :: b in c ==> b in repr
      requires Links(c, buckets[h]) && after == cs[h := c]
      ensures AllLinks(after)
    {
    }

    // The chains become what the links say.
    ghost method Adopt(cs: seq<seq<Bucket>>, touches: map<nat, nat>, time: nat)
      requires buckets.Length == HASH_SIZE && Proper(hash, Image(cs, view, touches, time)) && AllLinks(cs)
      modifies this`chains, this`touched, this`clock
      ensures Valid() && chains == cs && touched == touches && clock == time
    {
      chains, touched, clock := cs, touches, time;
    }

    // ... and so do the bindings.
    ghost method AdoptBindings(t: Image)
      requires buckets.Length == HASH_SIZE && Proper(hash, t) && AllLinks(t.chains)
      modifies this`chains, this`view, this`touched, this`clock
      ensures Valid() && chains == t.chains && view == t.view && touched == t.touched && clock == t.clock
    {
      view := t.view;
      Adopt(t.chains, t.touched, t.clock);
    }

    // HashFind, once the chain is known.  A bucket that is found is at the head of its chain
    // afterwards; no binding changes.
    method FindIn(h: nat, key: nat) returns (bucket: Bucket?)
      requires Valid() && h == hash(key)
      modifies this`chains, this`touched, this`clock, this`hits, this`partials, this`misses, buckets, repr
      ensures Valid()
      ensures bucket == null <==> key !in view
      ensures bucket != null ==> bucket in repr && bucket.key == key && bucket.value == view[key]
      ensures bucket != null ==> chains[h] != [] && chains[h][0] == bucket
      ensures touched == if key in view then old(touched)[key := old(clock)] else old(touched)
      ensures clock == old(clock) + if key in view then 1 else 0
      ensures misses == old(misses) + (if key in view then 0 else 1)
      ensures hits + partials == old(hits + partials) + (if key in view then 1 else 0)
    {
      AllApart(hash, chains, view, touched, clock, h);
      ghost var i, after;
      bucket, i, after := Search(h, key);
      if bucket == null {
        NotFound(hash, chains, view, touched, clock, key);
      } else {
        FoundIsProper(hash, chains, view, touched, clock, h, i);
        Adopt(after, touched[key := clock], clock + 1);
      }
    }

    method HashFind(key: nat) returns (bucket: Bucket?, h: nat)
      requires Valid() && Scatters()
      modifies this`chains, this`touched, this`clock, this`hits, this`partials, this`misses, buckets, repr
      ensures Valid() && h == hash(key)
      ensures bucket == null <==> key !in view
      ensures bucket != null ==> bucket in repr && bucket.key == key && bucket.value == view[key]
      ensures bucket != null ==> chains[h] != [] && chains[h][0] == bucket
      ensures touched == if key in view then old(touched)[key := old(clock)] else old(touched)
      ensures clock == old(clock) + if key in view then 1 else 0
      ensures misses == old(misses) + (if key in view then 0 else 1)
      ensures hits + partials == old(hits + partials) + (if key in view then 1 else 0)
    {
      h := HashHash(scatter, key);
      bucket := FindIn(h, key);
    }

    // drmHashLookup: 0 and the value, or 1
    method Lookup(key: nat) returns (code: int, value: nat)
      requires Valid() && Scatters()
      modifies this`chains, this`touched, this`clock, this`hits, this`partials, this`misses, buckets, repr
      ensures Valid()
      ensures code == if key in view then 0 else 1
      ensures code == 0 ==> value == view[key]
      ensures touched == if key in view then old(touched)[key := old(clock)] else old(touched)
    {
      var bucket, h := HashFind(key);
      if bucket == null {
        return 1, 0;
      }
      return 0, bucket.value;
    }

    // drmHashInsert: 0, or 1 if the key is there already, whose binding stays
    method Insert(key: nat, value: nat) returns (code: int)
      requires Valid() && Scatters()
      modifies this, buckets, repr
      ensures Valid() && fresh(repr - old(repr))
      ensures code == if key in old(view) then 1 else 0
      ensures view == if key in old(view) then old(view) else old(view)[key := value]
      ensures touched == old(touched)[key := old(clock)]
    {
      var bucket, h := HashFind(key);
      if bucket != null {
        return 1;
      }
      PutFirst(h, key, value);
      code := 0;
    }

    method PutFirst(h: nat, key: nat, value: nat)
      requires Valid() && h == hash(key) && key !in view
      modifies this`chains, this`view, this`touched, this`clock, this`repr, buckets
      ensures Valid() && fresh(repr - old(repr)) && view == old(view)[key := value]
      ensures touched == old(touched)[key := old(clock)]
    {
      ghost var view', touched' := view[key := value], touched[key := clock];
      ghost var bucket, after := LinkNew(h, key, value);
      InsertedIsProper(hash, chains, view, touched, clock, bucket, after, view', touched');
      AdoptBindings(Image(after, view', touched', clock + 1));
    }

    method LinkNew(h: nat, key: nat, value: nat) returns (ghost bucket: Bucket, ghost after: seq<seq<Bucket>>)
      requires AllLinks(chains) && h < |chains|
      modifies buckets, this`repr
      ensures bucket.key == key && bucket.value == value && after == chains[h := [bucket] + chains[h]]
      ensures fresh(bucket) && repr == old(repr) + {bucket} && AllLinks(after)
    {
      var b := new Bucket(key, value, buckets[h]);
      bucket, after := b, chains[h := [b] + chains[h]];
      LinkFirst(h, b, after);
    }

    method LinkFirst(h: nat, bucket: Bucket, ghost after: seq<seq<Bucket>>)
      requires AllLinks(chains) && h < |chains| && bucket.next == buckets[h]
      requires after == chains[h := [bucket] + chains[h]]
      modifies buckets, this`repr
      ensures repr == old(repr) + {bucket} && AllLinks(after)
    {
      buckets[h] := bucket;
      repr := repr + {bucket};
      Relinked(chains, h, [bucket] + chains[h], after);
    }

    // drmHashDelete: 0, or 1 if there is no such key.  It unlinks the head of the chain, for that is
    // where HashFind has put the bucket.
    method Delete(key: nat) returns (code: int)
      requires Valid() && Scatters()
      modifies this, buckets, repr
      ensures Valid() && repr == old(repr)
      ensures code == if key in old(view) then 0 else 1
      ensures view == old(view) - {key}
    {
      var bucket, h := HashFind(key);
      if bucket == null {
        return 1;
      }
      DropFirst(h, bucket);
      code := 0;
    }

    method DropFirst(h: nat, bucket: Bucket)
      requires Valid() && h < HASH_SIZE && chains[h] != [] && chains[h][0] == bucket
      modifies this`chains, this`view, this`touched, this`clock, buckets
      ensures Valid() && view == old(view) - {bucket.key}
    {
      DeletedIsProper(hash, chains, view, touched, clock, h);
      ghost var c := chains[h];
      buckets[h] := bucket.next;
      LinksRest(c, bucket, bucket.next);
      ghost var after := chains[h := c[1..]];
      Relinked(chains, h, c[1..], after);
      AdoptBindings(Image(after, view - {bucket.key}, touched, clock));
    }

    // What drmHashNext has still to visit, from bucket j of chain g on.
    ghost function Ahead(g: nat, j: nat): seq<Bucket>
      requires |chains| == HASH_SIZE && g < HASH_SIZE && j <= |chains[g]|
      reads this`p0, this`chains
    {
      if p0 >= HASH_SIZE then [] else chains[g][j..] + Flat(chains[p0..HASH_SIZE - 1])
    }

    ghost predicate Stands(g: nat, j: nat)
      reads this`p1, this`chains
    {
      |chains| == HASH_SIZE && g < HASH_SIZE && j <= |chains[g]| && p1 == At(chains[g], j)
    }

    // drmHashNext
    method Next(ghost g: nat, ghost j: nat) returns (more: bool, key: nat, value: nat, ghost g': nat, ghost j': nat)
      requires AllLinks(chains) && Stands(g, j)
      modifies this`p0, this`p1
      ensures Stands(g', j') && (more <==> old(Ahead(g, j)) != [])
      ensures more ==> key == old(Ahead(g, j))[0].key && value == old(Ahead(g, j))[0].value
      ensures more ==> Ahead(g', j') == old(Ahead(g, j))[1..]
    {
      ghost var rest := Ahead(g, j);
      g', j' := g, j;
      while p0 < HASH_SIZE
        invariant Stands(g', j') && Ahead(g', j') == rest
        decreases HASH_SIZE - p0
      {
        ghost var c := chains[g'];
        if p1 != null {
          assert Links(c, buckets[g']);
          RestOfChain(c, j', Flat(chains[p0..HASH_SIZE - 1]));
          key, value, more := p1.key, p1.value, true;
          assert c[j'].next == At(c, j' + 1);
          p1 := p1.next;
          j' := j' + 1;
          return;
        }
        assert Links(chains[p0], buckets[p0]);
        ghost var p := p0;
        p1 := buckets[p0];
        p0 := p0 + 1;
        g', j' := p, 0;
        FlatStep(chains, p);
      }
      more, key, value := false, 0, 0;
    }

    // The beginning of drmHashFirst
    method Rewind()
      requires AllLinks(chains) && |chains| == HASH_SIZE
      modifies this`p0, this`p1
      ensures Stands(0, 0) && Ahead(0, 0) == Visited(chains)
    {
      p0, p1 := 0, buckets[0];
      assert Links(chains[0], buckets[0]);
      assert chains[0..HASH_SIZE - 1] == chains[..HASH_SIZE - 1];
    }

    // drmHashFirst and drmHashNext until there is no more: chain 0 comes twice, chain 511 never.
    method Enumerate() returns (keys: seq<nat>, values: seq<nat>)
      requires AllLinks(chains) && |chains| == HASH_SIZE
      modifies this`p0, this`p1
      ensures PairsOf(keys, values, Visited(chains), [])
    {
      Rewind();
      keys, values := [], [];
      ghost var all, rest, g, j := Visited(chains), Visited(chains), 0, 0;
      var more, key, value := true, 0, 0;
      while more
        invariant AllLinks(chains) && Stands(g, j) && PairsOf(keys, values, all, rest)
        invariant if more then Ahead(g, j) == rest else rest == []
        decreases |rest|, more
      {
        more, key, value, g, j := Next(g, j);
        if more {
          OneMorePair(keys, values, all, rest);
          keys, values := keys + [key], values + [value];
          rest := rest[1..];
        }
      }
    }
  }

  // The keys and values of all these buckets but the rest.
  predicate PairsOf(keys: seq<nat>, values: seq<nat>, all: seq<Bucket>, rest: seq<Bucket>) {
    && |keys| == |values| && |keys| + |rest| == |all|
    && (forall i :: 0 <= i < |keys| ==> keys[i] == all[i].key && values[i] == all[i].value)
    && rest == all[|keys|..]
  }

  lemma OneMorePair(keys: seq<nat>, values: seq<nat>, all: seq<Bucket>, rest: seq<Bucket>)
    requires PairsOf(keys, values, all, rest) && rest != []
    ensures PairsOf(keys + [rest[0].key], values + [rest[0].value], all, rest[1..])
  {
  }

  function Flat(cs: seq<seq<Bucket>>): seq<Bucket> {
    if cs == [] then [] else cs[0] + Flat(cs[1..])
  }

  lemma RestOfChain(c: seq<Bucket>, j: nat, others: seq<Bucket>)
    requires j < |c|
    ensures c[j..] + others != [] && (c[j..] + others)[0] == c[j]
    ensures (c[j..] + others)[1..] == c[j + 1..] + others
  {
  }

  lemma FlatStep(cs: seq<seq<Bucket>>, p: nat)
    requires |cs| == HASH_SIZE && p < HASH_SIZE
    ensures Flat(cs[p..HASH_SIZE - 1]) == if p == HASH_SIZE - 1 then [] else cs[p] + Flat(cs[p + 1..HASH_SIZE - 1])
  {
  }

  // What an enumeration visits.
  function Visited(chains: seq<seq<Bucket>>): seq<Bucket>
    requires |chains| == HASH_SIZE
  {
    chains[0] + Flat(chains[..HASH_SIZE - 1])
  }

  lemma {:induction false} FlatLast(cs: seq<seq<Bucket>>)
    requires cs != []
    ensures Flat(cs) == Flat(cs[..|cs| - 1]) + cs[|cs| - 1]
    decreases |cs|
  {
    if |cs| == 1 {
      assert cs[1..] == [];
    } else {
      FlatLast(cs[1..]);
      assert cs[1..][..|cs| - 2] == cs[..|cs| - 1][1..];
    }
  }

  // A chain is empty exactly if no key belongs to it.
  lemma EmptyChain(hash: nat -> nat, chains: seq<seq<Bucket>>, view: map<nat, nat>, touched: map<nat, nat>,
    clock: nat, h: nat)
    requires Proper(hash, Image(chains, view, touched, clock)) && h < HASH_SIZE
    ensures chains[h] == [] <==> forall k :: k in view ==> hash(k) != h
  {
    if chains[h] != [] {
      FindAt(chains[h], 0);
      assert ProperChain(hash, chains[h], h, touched, clock);
      assert chains[h][0].key in view;
    }
  }

  // Hence an enumeration visits every binding exactly once if and only if no key hashes to the first
  // or the last chain.
  lemma VisitsEachOnceIff(hash: nat -> nat, chains: seq<seq<Bucket>>, view: map<nat, nat>, touched: map<nat, nat>,
    clock: nat)
    requires Proper(hash, Image(chains, view, touched, clock))
    ensures multiset(Visited(chains)) == multiset(Flat(chains)) <==>
            forall k :: k in view ==> hash(k) != 0 && hash(k) != HASH_SIZE - 1
  {
    var first, last := chains[0], chains[HASH_SIZE - 1];
    FlatLast(chains);
    EmptyChain(hash, chains, view, touched, clock, 0);
    EmptyChain(hash, chains, view, touched, clock, HASH_SIZE - 1);
    AllApart(hash, chains, view, touched, clock, 0);
    SameEnds(first, Flat(chains[..HASH_SIZE - 1]), last);
  }

  lemma SameEnds(c: seq<Bucket>, middle: seq<Bucket>, d: seq<Bucket>)
    requires forall b :: b in d ==> b !in c
    ensures multiset(c + middle) == multiset(middle + d) <==> c == [] && d == []
  {
    if multiset(c + middle) == multiset(middle + d) {
      assert multiset(c) == multiset(c + middle) - multiset(middle);
      assert multiset(d) == multiset(middle + d) - multiset(middle);
      NothingInCommon(c, d);
    } else {
      assert c == [] ==> c + middle == middle;
      assert d == [] ==> middle + d == middle;
    }
  }

  lemma NothingInCommon(c: seq<Bucket>, d: seq<Bucket>)
    requires multiset(c) == multiset(d) && forall b :: b in d ==> b !in c
    ensures c == [] && d == []
  {
    if c != [] {
      InMultiset(c, c[0]);
      InMultiset(d, c[0]);
    }
    assert |c| == |multiset(c)| == |multiset(d)| == |d|;
  }

  lemma InMultiset(c: seq<Bucket>, b: Bucket)
    ensures b in multiset(c) <==> b in c
  {
  }

  // ----- whole runs -----

  datatype Op = InsertOp(key: nat, value: nat) | DeleteOp(key: nat) | LookupOp(key: nat)
  datatype Answer = Answer(code: int, value: Option<nat>)

  // What a finite map would do.
  function OnMap(m: map<nat, nat>, op: Op): (r: (map<nat, nat>, Answer)) {
    match op
    case InsertOp(key, value) => if key in m then (m, Answer(1, None)) else (m[key := value], Answer(0, None))
    case DeleteOp(key) => (m - {key}, Answer(if key in m then 0 else 1, None))
    case LookupOp(key) => (m, Answer(if key in m then 0 else 1, Binding(m, key)))
  }

  function RunOnMap(m: map<nat, nat>, ops: seq<Op>): (r: (map<nat, nat>, seq<Answer>)) {
    if ops == [] then (m, []) else
      var (m', answers) := RunOnMap(m, ops[..|ops| - 1]);
      var (m'', answer) := OnMap(m', ops[|ops| - 1]);
      (m'', answers + [answer])
  }

  lemma RunOneMore(m: map<nat, nat>, ops: seq<Op>, i: nat)
    requires i < |ops|
    ensures var (m', answers) := RunOnMap(m, ops[..i]); var (m'', answer) := OnMap(m', ops[i]);
      RunOnMap(m, ops[..i + 1]) == (m'', answers + [answer])
  {
    assert ops[..i + 1][..i] == ops[..i];
  }

  method Apply(t: Table, op: Op) returns (a: Answer)
    requires t.Valid() && t.Scatters()
    modifies t, t.buckets, t.repr
    ensures t.Valid() && fresh(t.repr - old(t.repr))
    ensures (t.view, a) == OnMap(old(t.view), op)
  {
    match op {
      case InsertOp(key, value) =>
        var code := t.Insert(key, value);
        a := Answer(code, None);
      case DeleteOp(key) =>
        var code := t.Delete(key);
        a := Answer(code, None);
      case LookupOp(key) =>
        var code, value := t.Lookup(key);
        a := Answer(code, if code == 0 then Some(value) else None);
    }
  }

  // Any sequence of calls returns what a finite map returns and leaves the same bindings.
  method Run(ops: seq<Op>) returns (t: Table, answers: seq<Answer>)
    ensures t.Valid() && (t.view, answers) == RunOnMap(map[], ops)
  {
    t := new Table();
    answers := [];
    var i := 0;
    while i < |ops|
      invariant i <= |ops| && t.Valid() && t.Scatters()
      invariant fresh(t) && fresh(t.buckets) && fresh(t.repr)
      invariant (t.view, answers) == RunOnMap(map[], ops[..i])
    {
      RunOneMore(map[], ops, i);
      var a := Apply(t, ops[i]);
      answers := answers + [a];
      i := i + 1;
    }
    assert ops[..i] == ops;
  }
}
