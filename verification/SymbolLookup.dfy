/** Looking a symbol up by name: the two hash indexes and the linear scan of elfio_symbols.hpp. */
module SymbolLookup {
  import opened Bits
  import opened Wrappers
  import opened Hashing

  /** The names of a symbol table, as get_symbol by index delivers them; None when the string table has no
      string at the symbol's name offset. */
  type Names = seq<Option<Name>>

  /** The string variable after get_symbol(y): unchanged when there is no symbol y or no string. */
  function AfterGet(names: Names, y: nat, str: Name): Name {
    if y < |names| && names[y].Some? then names[y].value else str
  }

  predicate Named(names: Names, y: nat, name: Name) { y < |names| && names[y] == Some(name) }

  ghost predicate Present(names: Names, name: Name) { exists y :: 0 <= y < |names| && Named(names, y, name) }

  /** What a lookup does: it finds symbol y, finds none, never returns, or reads outside the index. */
  datatype Lookup = Hit(y: nat) | Miss | NeverEnds | OutOfBounds

  // ----- the linear scan -----

  /** The lowest symbol of that name from i on. */
  function Scan(names: Names, name: Name, i: nat): (r: Option<nat>)
    ensures r.Some? ==> i <= r.value < |names| && Named(names, r.value, name)
    ensures forall y :: i <= y < (if r.Some? then r.value else |names|) ==> !Named(names, y, name)
    decreases |names| - i
  {
    if i >= |names| then None else if Named(names, i, name) then Some(i) else Scan(names, name, i + 1)
  }

  // ----- the System V hash table -----

  /** nbucket, nchain, the buckets and the chains. */
  type HashTable = d: seq<word> | |d| >= 2 witness [0, 0]

  function Buckets(d: HashTable): nat { d[0] }
  function Chains(d: HashTable): nat { d[1] }

  /** As many buckets and chain entries as the header says, and at least one bucket. */
  predicate SysvShape(d: HashTable) { Buckets(d) > 0 && |d| == 2 + Buckets(d) + Chains(d) }

  function Bucket(d: HashTable, b: nat): word
    requires SysvShape(d) && b < Buckets(d)
  {
    d[2 + b]
  }

  function Chain(d: HashTable, y: nat): word
    requires SysvShape(d) && y < Chains(d)
  {
    d[2 + Buckets(d) + y]
  }

  /** A table whose links stay inside it and whose chains are not cyclic: the rank falls along them. */
  ghost predicate Acyclic(d: HashTable, rank: seq<nat>) {
    && SysvShape(d) && |rank| == Chains(d)
    && (forall b :: 0 <= b < Buckets(d) ==> Bucket(d, b) < Chains(d))
    && (forall y :: 0 <= y < Chains(d) ==> Chain(d, y) < Chains(d))
    && (forall y :: 0 < y < Chains(d) && Chain(d, y) != 0 ==> rank[Chain(d, y)] < rank[y])
  }

  function Measure(rank: seq<nat>, y: nat): nat
    requires y < |rank|
  {
    if y == 0 then 0 else rank[y] + 1
  }

  /** Symbol z is on the chain that starts at y. */
  ghost predicate OnChain(d: HashTable, rank: seq<nat>, y: nat, z: nat)
    requires Acyclic(d, rank) && y < Chains(d)
    decreases Measure(rank, y)
  {
    y == z || (y != 0 && OnChain(d, rank, Chain(d, y), z))
  }

  /** One chain entry for each symbol, and every symbol with a name is on its bucket's chain. */
  ghost predicate Indexes(d: HashTable, rank: seq<nat>, names: Names) {
    && Acyclic(d, rank) && Chains(d) == |names|
    && forall y :: 0 < y < |names| && names[y].Some? && names[y].value != [] ==>
         OnChain(d, rank, Bucket(d, SysvHash(CString(names[y].value)) % Buckets(d)), y)
  }

  /** The walk from y after n links. */
  function Walk(d: HashTable, y: nat, n: nat): nat
    requires SysvShape(d)
  {
    if n == 0 then y
    else
      var z := Walk(d, y, n - 1);
      if z < Chains(d) then Chain(d, z) else z
  }

  /** The walk stops at the name, at 0, and at a link that leaves the table. */
  predicate Stops(d: HashTable, names: Names, name: Name, y: nat) { Named(names, y, name) || y == 0 || y >= Chains(d) }

  ghost predicate Ends(d: HashTable, names: Names, name: Name, y: nat)
    requires SysvShape(d)
  {
    exists n: nat :: Stops(d, names, name, Walk(d, y, n))
  }

  /** Where the lookup of a name starts. */
  function ChainStart(d: HashTable, name: Name): nat
    requires SysvShape(d)
  {
    Bucket(d, SysvHash(CString(name)) % Buckets(d))
  }

  lemma {:induction false} SameFrom(d: HashTable, y: nat, i: nat, j: nat, k: nat)
    requires SysvShape(d) && Walk(d, y, i) == Walk(d, y, j)
    ensures Walk(d, y, i + k) == Walk(d, y, j + k)
    decreases k
  {
    if k > 0 { SameFrom(d, y, i, j, k - 1); }
  }

  /** A walk that comes back to an entry without stopping never stops. */
  lemma {:induction false} Cycles(d: HashTable, names: Names, name: Name, y: nat, i: nat, j: nat, n: nat)
    requires SysvShape(d) && i < j && Walk(d, y, i) == Walk(d, y, j)
    requires forall k: nat :: k < j ==> !Stops(d, names, name, Walk(d, y, k))
    ensures !Stops(d, names, name, Walk(d, y, n))
    decreases n
  {
    hide Stops;
    if n >= j {
      SameFrom(d, y, i, j, n - j);
      Cycles(d, names, name, y, i, j, i + (n - j));
    }
  }

  /** An acyclic table ends every walk. */
  lemma {:induction false} AcyclicEnds(d: HashTable, rank: seq<nat>, names: Names, name: Name, y: nat, n: nat)
    requires Acyclic(d, rank) && Walk(d, y, n) < Chains(d)
    ensures Ends(d, names, name, y)
    decreases Measure(rank, Walk(d, y, n))
  {
    var z := Walk(d, y, n);
    if !Stops(d, names, name, z) {
      assert Walk(d, y, n + 1) == Chain(d, z);
      AcyclicEnds(d, rank, names, name, y, n + 1);
    }
  }

  lemma {:induction false} FewBelow(s: set<nat>, n: nat)
    requires forall x :: x in s ==> x < n
    ensures |s| <= n
    decreases n
  {
    if n > 0 {
      var rest := s - {n - 1};
      FewBelow(rest, n - 1);
      assert s <= rest + {n - 1};
    } else {
      assert s == {};
    }
  }

  /** The first n entries of the walk are those of `seen`, and none of them stops it. */
  ghost predicate Walked(d: HashTable, names: Names, name: Name, y: nat, n: nat, seen: set<nat>)
    requires SysvShape(d)
  {
    && (forall k: nat :: k < n ==> Walk(d, y, k) in seen && !Stops(d, names, name, Walk(d, y, k)))
    && (forall z :: z in seen ==> z < Chains(d) && exists k: nat :: k < n && z == Walk(d, y, k))
  }

  lemma WalkOn(d: HashTable, names: Names, name: Name, y: nat, n: nat, seen: set<nat>)
    requires SysvShape(d) && Walked(d, names, name, y, n, seen)
    requires !Stops(d, names, name, Walk(d, y, n)) && Walk(d, y, n) !in seen
    ensures Walk(d, y, n) < Chains(d) && |seen + {Walk(d, y, n)}| <= Chains(d)
    ensures Walked(d, names, name, y, n + 1, seen + {Walk(d, y, n)})
  {
    hide Walk;
    var more := seen + {Walk(d, y, n)};
    FewBelow(more, Chains(d));
    forall z | z in more ensures z < Chains(d) && exists k: nat :: k < n + 1 && z == Walk(d, y, k) {
      if z in seen {
        var k: nat :| k < n && z == Walk(d, y, k);
      }
    }
  }

  /** In a complete table every symbol of that name is still ahead. */
  ghost predicate Ahead(d: HashTable, rank: seq<nat>, names: Names, name: Name, y: nat) {
    && Indexes(d, rank, names) && y < Chains(d)
    && forall z :: 0 < z < |names| && Named(names, z, name) ==> OnChain(d, rank, y, z)
  }

  lemma AheadOn(d: HashTable, rank: seq<nat>, names: Names, name: Name, y: nat)
    requires Ahead(d, rank, names, name, y) && y != 0 && !Named(names, y, name)
    ensures Ahead(d, rank, names, name, d[2 + d[0] + y])
  {
    assert d[2 + d[0] + y] == Chain(d, y);
  }

  lemma AheadAtStart(d: HashTable, rank: seq<nat>, names: Names, name: Name)
    requires Indexes(d, rank, names) && name != []
    ensures Ahead(d, rank, names, name, ChainStart(d, name))
  {
    hide SysvHash;
  }

  /** hash_lookup, on any table; coming back to an entry stands for the walk that never ends. What it finds
      has the name; if the table is complete, it ends, and finds the name exactly when it is present. */
  method HashLookup(d: HashTable, ghost rank: seq<nat>, names: Names, name: Name) returns (r: Lookup)
    requires SysvShape(d) && name != []
    ensures r != OutOfBounds && (r == NeverEnds <==> !Ends(d, names, name, ChainStart(d, name)))
    ensures r.Hit? ==> Named(names, r.y, name)
    ensures Indexes(d, rank, names) ==> r != NeverEnds && (r.Hit? <==> Present(names, name))
  {
    hide SysvHash, Present, Walk, Ends, Walked, Ahead, Indexes, OnChain;
    var val := ElfHash(name);
    var y: nat := d[2 + val % d[0]];
    ghost var y0, n: nat, complete := y, 0, Indexes(d, rank, names);
    assert y == Bucket(d, val % Buckets(d)) == ChainStart(d, name);
    WalkStarts(d, names, name, y0);
    if complete { AheadAtStart(d, rank, names, name); }
    var seen: set<nat> := {};
    var str := AfterGet(names, y, []);
    while str != name && y != 0 && y < d[1]
      invariant y == Walk(d, y0, n)
      invariant str == name <==> Named(names, y, name)
      invariant Walked(d, names, name, y0, n, seen)
      invariant complete ==> Ahead(d, rank, names, name, y)
      decreases Chains(d) - |seen|
    {
      if y in seen {
        NeverStops(d, names, name, y0, n, seen);
        if complete { CompleteEnds(d, rank, names, name, y0, n); }
        return NeverEnds;
      }
      WalkOn(d, names, name, y0, n, seen);
      WalkStep(d, y0, n);
      if complete { AheadOn(d, rank, names, name, y); }
      seen, n := seen + {y}, n + 1;
      y := d[2 + d[0] + y];
      str := AfterGet(names, y, str);
    }
    assert Stops(d, names, name, y);
    EndsAt(d, names, name, y0, n);
    r := if str == name then Hit(y) else Miss;
    if complete { Decided(d, rank, names, name, y); }
  }

  lemma CompleteEnds(d: HashTable, rank: seq<nat>, names: Names, name: Name, y: nat, n: nat)
    requires SysvShape(d) && Ahead(d, rank, names, name, Walk(d, y, n))
    ensures Ends(d, names, name, y)
  {
    AcyclicEnds(d, rank, names, name, y, n);
  }

  lemma WalkStarts(d: HashTable, names: Names, name: Name, y: nat)
    requires SysvShape(d)
    ensures Walk(d, y, 0) == y && Walked(d, names, name, y, 0, {})
  {
  }

  lemma WalkStep(d: HashTable, y: nat, n: nat)
    requires SysvShape(d) && Walk(d, y, n) < Chains(d)
    ensures Walk(d, y, n + 1) == d[2 + d[0] + Walk(d, y, n)]
  {
    assert Chain(d, Walk(d, y, n)) == d[2 + d[0] + Walk(d, y, n)];
  }

  lemma EndsAt(d: HashTable, names: Names, name: Name, y: nat, n: nat)
    requires SysvShape(d) && Stops(d, names, name, Walk(d, y, n))
    ensures Ends(d, names, name, y)
  {
  }

  lemma NeverStops(d: HashTable, names: Names, name: Name, y: nat, n: nat, seen: set<nat>)
    requires SysvShape(d) && Walked(d, names, name, y, n, seen) && Walk(d, y, n) in seen
    ensures !Ends(d, names, name, y)
  {
    hide Walk, Stops;
    var k: nat :| k < n && Walk(d, y, n) == Walk(d, y, k);
    forall m: nat ensures !Stops(d, names, name, Walk(d, y, m)) {
      Cycles(d, names, name, y, k, n, m);
    }
  }

  lemma Decided(d: HashTable, rank: seq<nat>, names: Names, name: Name, y: nat)
    requires Ahead(d, rank, names, name, y) && Stops(d, names, name, y)
    ensures Present(names, name) <==> Named(names, y, name)
  {
    forall z: nat | z < |names| ensures OnChain(d, rank, 0, z) ==> z == 0 {}
  }

  /** A table of one bucket whose only chain leads back to itself: a name that is not there is looked for
      without end. */
  lemma CyclicTableNeverEnds(name: Name)
    requires name != [0x61]
    ensures var d: HashTable, names: Names := [1, 2, 1, 0, 1], [Some([]), Some([0x61])];
            SysvShape(d) && !Ends(d, names, name, ChainStart(d, name))
  {
    hide SysvHash;
    var d: HashTable, names: Names := [1, 2, 1, 0, 1], [Some([]), Some([0x61])];
    assert ChainStart(d, name) == 1;
    forall n: nat ensures Walk(d, 1, n) == 1 { StaysAtOne(d, n); }
  }

  lemma {:induction false} StaysAtOne(d: HashTable, n: nat)
    requires SysvShape(d) && Chains(d) > 1 && Chain(d, 1) == 1
    ensures Walk(d, 1, n) == 1
  {
    if n > 0 { StaysAtOne(d, n - 1); }
  }

  // ----- the GNU hash table -----

  /** A GNU hash section with `width`-bit Bloom words. */
  datatype GnuTable = GnuTable(
    width: nat, symOffset: word, shift: nat, bloom: seq<nat>, buckets: seq<word>, chains: seq<word>)
  {
    predicate HasShape() {
      && (width == 32 || width == 64) && shift < 32
      && 0 < |bloom| < 0x1_0000_0000 && 0 < |buckets| < 0x1_0000_0000
      && (forall i :: 0 <= i < |bloom| ==> bloom[i] < Pow2(width))
    }

    /** The Bloom word and the two bits of a hash value. */
    function BloomIndex(h: word): nat
      requires HasShape()
    {
      h / width % |bloom|
    }

    function BloomBits(h: word): nat
      requires HasShape()
    {
      Or(Pow2(h % width), Pow2(h / Pow2(shift) % width))
    }

    predicate BloomPasses(h: word)
      requires HasShape()
    {
      And(bloom[BloomIndex(h)], BloomBits(h)) == BloomBits(h)
    }
  }

  /** Both bits of every hash are set in the Bloom filter. */
  ghost predicate BloomSet(g: GnuTable, h: word)
    requires g.HasShape()
  {
    var w := g.bloom[h / g.width % |g.bloom|];
    Bit(w, h % g.width) && Bit(w, h / Pow2(g.shift) % g.width)
  }

  /** The hash of the i-th hashed symbol. */
  function HashAt(g: GnuTable, names: Names, i: nat): word {
    var y := g.symOffset + i;
    if y < |names| && names[y].Some? then GnuHash(CString(names[y].value)) else 0
  }

  /** A well-formed GNU hash section for a symbol table: the symbols from symOffset on are hashed, grouped
      by bucket; a chain word holds the hash, with the lowest bit set on the last of its bucket; a bucket
      holds its first symbol, or 0. */
  ghost predicate GnuIndexes(g: GnuTable, names: Names) {
    && g.HasShape() && g.symOffset >= 1
    && g.symOffset + |g.chains| == |names| < 0x1_0000_0000
    && (forall y :: g.symOffset <= y < |names| ==> names[y].Some?)
    && (forall i :: 0 <= i < |g.chains| ==> BloomSet(g, HashAt(g, names, i)))
    && (forall i :: 0 <= i < |g.chains| ==> g.chains[i] / 2 == HashAt(g, names, i) / 2)
    && (forall i :: 0 <= i < |g.chains| ==> EndBitRight(g, names, i))
    && (forall i, j, k :: 0 <= i <= j <= k < |g.chains| ==> Contiguous(g, names, i, j, k))
    && (forall b :: 0 <= b < |g.buckets| ==> BucketRight(g, names, b))
  }

  /** The lowest bit of a chain word marks the last symbol of a bucket. */
  ghost predicate EndBitRight(g: GnuTable, names: Names, i: nat)
    requires g.HasShape() && i < |g.chains|
  {
    g.chains[i] % 2 == 1 <==>
    (i + 1 == |g.chains| || HashAt(g, names, i + 1) % |g.buckets| != HashAt(g, names, i) % |g.buckets|)
  }

  /** The symbols between two of one bucket are of that bucket. */
  ghost predicate Contiguous(g: GnuTable, names: Names, i: nat, j: nat, k: nat)
    requires g.HasShape()
  {
    HashAt(g, names, i) % |g.buckets| == HashAt(g, names, k) % |g.buckets| ==>
    HashAt(g, names, j) % |g.buckets| == HashAt(g, names, i) % |g.buckets|
  }

  ghost predicate BucketRight(g: GnuTable, names: Names, b: nat)
    requires g.HasShape() && b < |g.buckets|
  {
    if g.buckets[b] < g.symOffset then forall i :: 0 <= i < |g.chains| ==> HashAt(g, names, i) % |g.buckets| != b
    else
      var f := g.buckets[b] - g.symOffset;
      && f < |g.chains| && HashAt(g, names, f) % |g.buckets| == b
      && forall i :: 0 <= i < f ==> HashAt(g, names, i) % |g.buckets| != b
  }

  lemma {:induction false} SingleBit(k: nat, j: nat)
    ensures Bit(Pow2(k), j) <==> j == k
  {
    if k == 0 {
      if j > 0 { ZeroBit(j - 1); }
    } else if j > 0 {
      SingleBit(k - 1, j - 1);
    }
  }

  /** The Bloom test is passed exactly when both bits of the hash are set in the word that its quotient by
      the width selects. */
  lemma BloomExact(g: GnuTable, h: word)
    requires g.HasShape()
    ensures g.BloomPasses(h) <==>
            var w := g.bloom[h / g.width % |g.bloom|]; Bit(w, h % g.width) && Bit(w, h / Pow2(g.shift) % g.width)
  {
    hide And, Or, Bit, Pow2;
    var w, a, b := g.bloom[g.BloomIndex(h)], h % g.width, h / Pow2(g.shift) % g.width;
    TwoBits(w, a, b);
  }

  lemma TwoBits(w: nat, a: nat, b: nat)
    ensures And(w, Or(Pow2(a), Pow2(b))) == Or(Pow2(a), Pow2(b)) <==> Bit(w, a) && Bit(w, b)
  {
    hide And, Or, Bit, Pow2;
    var bits := Or(Pow2(a), Pow2(b));
    forall k: nat
      ensures Bit(bits, k) <==> k == a || k == b
      ensures Bit(And(w, bits), k) <==> Bit(w, k) && (k == a || k == b)
    {
      SingleBit(a, k);
      SingleBit(b, k);
      BitwiseOr(Pow2(a), Pow2(b), k);
      BitwiseAnd(w, bits, k);
    }
    if Bit(w, a) && Bit(w, b) { Extensional(And(w, bits), bits); }
  }

  /** The lowest hashed symbol of that name. */
  ghost predicate LowestHashed(g: GnuTable, names: Names, name: Name, y: nat) {
    && g.symOffset <= y && Named(names, y, name)
    && forall z :: g.symOffset <= z < y ==> !Named(names, z, name)
  }

  /** No symbol of that name is hashed below y. */
  ghost predicate NoneBelow(g: GnuTable, names: Names, name: Name, y: nat) {
    forall z :: g.symOffset <= z < y ==> !Named(names, z, name)
  }

  /** A table on which no lookup leaves the chains: every bucket in use starts inside them, and the last
      chain word has its lowest bit set. */
  ghost predicate GnuSafe(g: GnuTable) {
    && g.HasShape()
    && (forall b :: 0 <= b < |g.buckets| && g.buckets[b] >= g.symOffset ==> g.buckets[b] - g.symOffset < |g.chains|)
    && (|g.chains| > 0 ==> g.chains[|g.chains| - 1] % 2 == 1)
  }

  /** gnu_hash_lookup, on any table. What it finds has the name; if the table is complete, it finds the
      lowest hashed symbol of a name, or none if there is none. */
  method GnuHashLookup(g: GnuTable, names: Names, name: Name) returns (r: Lookup)
    requires g.HasShape()
    ensures r != NeverEnds && (GnuSafe(g) ==> r != OutOfBounds)
    ensures r.Hit? && name != [] ==> Named(names, r.y, name)
    ensures GnuIndexes(g, names) && 0 !in name ==>
              && r != OutOfBounds
              && if r.Hit? then LowestHashed(g, names, name, r.y)
                 else forall z :: g.symOffset <= z < |names| ==> !Named(names, z, name)
  {
    hide GnuHash, And, Or, Pow2, Bit, GnuTable.BloomBits, GnuIndexes, NoneBelow, InBucket, LowestHashed;
    ghost var complete := GnuIndexes(g, names) && 0 !in name;
    var hash := ElfGnuHash(name);
    if complete {
      GnuShape(g, names);
      IndexesAreSafe(g, names);
      NoNul(name);
    }
    if And(g.bloom[g.BloomIndex(hash)], g.BloomBits(hash)) != g.BloomBits(hash) {
      if complete { BloomRejects(g, names, name, hash); }
      return Miss;
    }
    var bucket := hash % |g.buckets|;
    if complete { BucketStart(g, names, name, hash); }
    if g.buckets[bucket] < g.symOffset {
      if complete { NoneNamed(g, names, name); }
      return Miss;
    }
    if g.buckets[bucket] - g.symOffset >= |g.chains| { return OutOfBounds; }
    r := WalkChain(g, names, name, hash, g.buckets[bucket] - g.symOffset);
    if complete && !r.Hit? { NoneNamed(g, names, name); }
  }

  /** The loop over the chain, from entry `start` on. */
  method WalkChain(g: GnuTable, names: Names, name: Name, hash: word, start: nat) returns (r: Lookup)
    requires g.HasShape() && start < |g.chains|
    ensures r != NeverEnds && (GnuSafe(g) ==> r != OutOfBounds)
    ensures r.Hit? && name != [] ==> Named(names, r.y, name)
    ensures GnuIndexes(g, names) && hash == GnuHash(CString(name)) && InBucket(g, names, name, hash, start) ==>
              && r != OutOfBounds
              && if r.Hit? then LowestHashed(g, names, name, r.y) else NoneBelow(g, names, name, |names|)
  {
    hide GnuHash, Pow2, GnuIndexes, NoneBelow, InBucket, LowestHashed;
    ghost var complete := GnuIndexes(g, names) && hash == GnuHash(CString(name))
        && InBucket(g, names, name, hash, start);
    if complete { IndexesAreSafe(g, names); }
    var i, symname := start, [];
    while true
      invariant i < |g.chains| && (name != [] ==> symname != name)
      invariant complete ==> InBucket(g, names, name, hash, i)
      decreases |g.chains| - i
    {
      var chainHash, symbol := g.chains[i], W(g.symOffset + i);
      if complete { ChainStep(g, names, name, hash, i); }
      if chainHash / 2 == hash / 2 && symbol < |names| {
        symname := AfterGet(names, symbol, symname);
        if symname == name { return Hit(symbol); }
      }
      if chainHash % 2 == 1 { return Miss; }
      i := i + 1;
      if i == |g.chains| { return OutOfBounds; }
    }
  }

  /** Chain entry i is one of the bucket of h, and no symbol in front of it has the name. */
  ghost predicate InBucket(g: GnuTable, names: Names, name: Name, h: word, i: nat)
    requires g.HasShape()
  {
    i < |g.chains| && HashAt(g, names, i) % |g.buckets| == h % |g.buckets| && NoneBelow(g, names, name, g.symOffset + i)
  }

  /** A complete table is safe. */
  lemma IndexesAreSafe(g: GnuTable, names: Names)
    requires GnuIndexes(g, names)
    ensures GnuSafe(g)
  {
    hide GnuHash, HashAt, BloomSet, Contiguous, Pow2;
    forall b | 0 <= b < |g.buckets| && g.buckets[b] >= g.symOffset ensures g.buckets[b] - g.symOffset < |g.chains| {
      assert BucketRight(g, names, b);
    }
    if |g.chains| > 0 { assert EndBitRight(g, names, |g.chains| - 1); }
  }

  lemma GnuShape(g: GnuTable, names: Names)
    requires GnuIndexes(g, names)
    ensures g.HasShape() && g.symOffset + |g.chains| == |names| < 0x1_0000_0000
    ensures forall y :: g.symOffset <= y < |names| ==> names[y].Some?
  {
  }

  lemma NoneNamed(g: GnuTable, names: Names, name: Name)
    requires NoneBelow(g, names, name, |names|)
    ensures forall z :: g.symOffset <= z < |names| ==> !Named(names, z, name)
  {
  }

  /** The bucket leads to the first symbol of that bucket, or there is none of that name. */
  lemma BucketStart(g: GnuTable, names: Names, name: Name, h: word)
    requires GnuIndexes(g, names) && h == GnuHash(CString(name))
    ensures g.HasShape()
    ensures var first := g.buckets[h % |g.buckets|];
            if first < g.symOffset then NoneBelow(g, names, name, |names|)
            else InBucket(g, names, name, h, first - g.symOffset)
  {
    hide GnuHash, HashAt, BloomSet, EndBitRight, Contiguous;
    assert BucketRight(g, names, h % |g.buckets|);
    AllInBucket(g, names, name, h);
  }

  /** One symbol of the chain: either it has the name, or the chain goes on in the bucket, or no symbol has
      the name. */
  lemma ChainStep(g: GnuTable, names: Names, name: Name, h: word, i: nat)
    requires GnuIndexes(g, names) && h == GnuHash(CString(name)) && InBucket(g, names, name, h, i)
    ensures g.symOffset + i < |names| < 0x1_0000_0000 && names[g.symOffset + i].Some?
    ensures g.chains[i] / 2 == h / 2 && names[g.symOffset + i] == Some(name) ==>
              LowestHashed(g, names, name, g.symOffset + i)
    ensures !(g.chains[i] / 2 == h / 2 && names[g.symOffset + i] == Some(name)) ==>
              && (g.chains[i] % 2 == 1 ==> NoneBelow(g, names, name, |names|))
              && (g.chains[i] % 2 == 0 ==> InBucket(g, names, name, h, i + 1))
  {
    hide GnuHash, BloomSet, BucketRight, Contiguous, Pow2;
    assert EndBitRight(g, names, i);
    if !(g.chains[i] / 2 == h / 2 && names[g.symOffset + i] == Some(name)) {
      assert !Named(names, g.symOffset + i, name);
      if g.chains[i] % 2 == 1 { LastOfBucket(g, names, name, h, i); }
    }
  }

  lemma {:induction false} NoNul(s: Name)
    requires 0 !in s
    ensures CString(s) == s
  {
  }

  lemma BloomRejects(g: GnuTable, names: Names, name: Name, h: word)
    requires GnuIndexes(g, names) && h == GnuHash(CString(name)) && !g.BloomPasses(h)
    ensures forall z :: g.symOffset <= z < |names| ==> !Named(names, z, name)
  {
    hide GnuHash, And, Or, Pow2, Bit, GnuTable.BloomPasses;
    BloomExact(g, h);
    forall z | g.symOffset <= z < |names| ensures !Named(names, z, name) {
      assert BloomSet(g, HashAt(g, names, z - g.symOffset));
    }
  }

  lemma AllInBucket(g: GnuTable, names: Names, name: Name, h: word)
    requires GnuIndexes(g, names) && h == GnuHash(CString(name))
    ensures forall z :: g.symOffset <= z < |names| && Named(names, z, name) ==>
              HashAt(g, names, z - g.symOffset) % |g.buckets| == h % |g.buckets|
  {
    hide GnuHash, BloomSet, Pow2;
  }

  lemma LastOfBucket(g: GnuTable, names: Names, name: Name, h: word, i: nat)
    requires GnuIndexes(g, names) && h == GnuHash(CString(name)) && i < |g.chains|
    requires HashAt(g, names, i) % |g.buckets| == h % |g.buckets| && g.chains[i] % 2 == 1
    requires forall z :: g.symOffset <= z <= g.symOffset + i ==> !Named(names, z, name)
    ensures forall z :: g.symOffset <= z < |names| ==> !Named(names, z, name)
  {
    hide GnuHash, BloomSet, BucketRight, Pow2;
    AllInBucket(g, names, name, h);
    assert EndBitRight(g, names, i);
    forall z | g.symOffset + i < z < |names| ensures !Named(names, z, name) {
      assert Contiguous(g, names, i, i + 1, z - g.symOffset);
    }
  }

  // ----- lookup by name as a whole -----

  datatype HashSection = NoHash | Sysv(table: HashTable) | Gnu(gnu: GnuTable)

  predicate HasIndexShape(h: HashSection) {
    match h
    case NoHash => true
    case Sysv(d) => SysvShape(d)
    case Gnu(g) => g.HasShape()
  }

  ghost predicate UniqueNames(names: Names) {
    forall i, j :: 0 <= i < j < |names| && names[i].Some? && names[i].value != [] ==> names[i] != names[j]
  }

  /** get_symbol by name: the hash index first, the linear scan when it fails. Whatever symbols the index
      misses or lists: if it returns, it succeeds exactly when the scan would, and when names are unique
      with the same symbol. It does not return exactly when a chain leads back to itself before the name. */
  method GetSymbolByName(h: HashSection, names: Names, name: Name) returns (r: Lookup)
    requires HasIndexShape(h) && name != []
    ensures r == NeverEnds <==> h.Sysv? && !Ends(h.table, names, name, ChainStart(h.table, name))
    ensures r == OutOfBounds ==> h.Gnu? && !GnuSafe(h.gnu)
    ensures r.Hit? || r.Miss? ==> (r.Hit? <==> Scan(names, name, 0).Some?)
    ensures r.Hit? ==> Named(names, r.y, name) && (UniqueNames(names) ==> r.y == Scan(names, name, 0).value)
  {
    hide Indexes, GnuIndexes, SysvShape, GnuSafe, Ends;
    r := Miss;
    match h {
      case NoHash =>
      case Sysv(d) => r := HashLookup(d, [], names, name);
      case Gnu(g) => r := GnuHashLookup(g, names, name);
    }
    if r == Miss {
      var y := 0;
      while y < |names|
        invariant y <= |names| && Scan(names, name, y) == Scan(names, name, 0)
      {
        if Named(names, y, name) { return Hit(y); }
        y := y + 1;
      }
    }
  }
}
