// Ethash as in ethash_internal.c: dataset items from the cache, in a plain form, one with
// fast_mod and one for four items at once, the full dataset, and the hash that reads it or
// recomputes it. SHA3-512 and SHA3-256 are parameters; nodes are 16 words.

module Ethash {
  import FastMod
  import Numbers
  import opened Words
  import opened WordXor

  const NODE_WORDS: nat := 16
  const MIX_WORDS: nat := 32
  const MIX_NODES: nat := 2
  const ACCESSES: nat := 64
  const DATASET_PARENTS: nat := 256

  type Node = s: seq<uint32> | |s| == 16 witness seq(16, i => 0)

  datatype Hashes = Hashes(sha512: seq<uint32> -> Node, sha256: seq<uint32> -> seq<uint32>)

  // ethash_light: the cache and the constants for division by its number of nodes.
  datatype Light = Light(cache: seq<Node>, reciprocal: nat, increment: nat, shift: nat) {
    ghost predicate Valid() {
      0 < |cache| < TWO32 && DividesBelow(TWO32)
    }

    // fast_mod is the remainder for operands below the limit.
    ghost predicate DividesBelow(limit: nat)
      requires 0 < |cache|
    {
      forall a: nat :: a < limit ==> FastMod.FastMod(a, |cache|, reciprocal, increment, shift) == a % |cache|
    }

    function Remainder(a: nat, ghost limit: nat): (m: nat)
      requires Valid() && a < limit && DividesBelow(limit)
      ensures m == a % |cache|
    {
      FastMod.FastMod(a, |cache|, reciprocal, increment, shift)
    }
  }

  // With the constants KPCache.cpp computes the divisions are right, up to 2^32 + 3 for caches
  // of at most 2^29 nodes.
  method LightFor(cache: seq<Node>) returns (light: Light)
    requires 0 < |cache| < TWO32
    ensures light.cache == cache && light.Valid()
    ensures |cache| <= FastMod.SMALL ==> light.DividesBelow(TWO32 + 4)
  {
    var reciprocal, increment, shift := FastMod.CalculateFastModData(|cache|);
    light := Light(cache, reciprocal, increment, shift);
  }

  lemma LightIsValid(light: Light)
    requires 0 < |light.cache| < TWO32
    requires FastMod.GoodReciprocal(|light.cache|, light.reciprocal, light.increment, light.shift, TWO32)
    ensures light.Valid()
  {
    FastMod.FastModIsModForAll(|light.cache|, light.reciprocal, light.increment, light.shift, TWO32);
  }

  const FNV_PRIME: nat := 0x01000193

  // fnv_hash
  function Fnv(x: uint32, y: uint32): uint32 {
    Xor32(x * FNV_PRIME % TWO32, y)
  }

  function FnvNode(x: Node, y: Node): (r: Node)
    ensures forall w :: 0 <= w < 16 ==> r[w] == Fnv(x[w], y[w])
  {
    seq(16, w requires 0 <= w < 16 => Fnv(x[w], y[w]))
  }

  // ---- what a dataset item is ----

  // A uint32_t index.
  type Index = i: nat | i < TWO32

  function FirstMix(h: Hashes, init: Node, index: Index): Node {
    h.sha512(XorFirst(init, index))
  }

  function XorFirst(node: Node, index: Index): Node {
    node[0 := Xor32(node[0], index)]
  }

  function ParentHash(index: Index, i: Index, mix: Node): (x: Index) {
    Fnv(Xor32(index, i), mix[i % NODE_WORDS])
  }

  function ParentIndex(n: nat, index: Index, i: Index, mix: Node): (p: nat)
    requires n > 0
    ensures p < n
  {
    ParentHash(index, i, mix) % n
  }

  // The mix after k parents, from a given cache node.
  function Mixed(h: Hashes, cache: seq<Node>, init: Node, index: Index, k: nat): Node
    requires |cache| > 0 && k <= TWO32
  {
    if k == 0 then FirstMix(h, init, index)
    else
      var mix := Mixed(h, cache, init, index, k - 1);
      FnvNode(mix, cache[ParentIndex(|cache|, index, k - 1, mix)])
  }

  function ItemFrom(h: Hashes, cache: seq<Node>, init: Node, index: Index, numParents: nat): Node
    requires |cache| > 0 && numParents <= TWO32
  {
    h.sha512(Mixed(h, cache, init, index, numParents))
  }

  // An item starts from the cache node its index selects.
  function DagItem(h: Hashes, cache: seq<Node>, index: Index, numParents: nat): Node
    requires |cache| > 0 && numParents <= TWO32
  {
    ItemFrom(h, cache, cache[index % |cache|], index, numParents)
  }

  // ---- nodes in an array of words ----

  function NodeAt(s: seq<uint32>, j: nat): (n: Node)
    requires 16 * j + 16 <= |s|
  {
    s[16 * j..16 * j + 16]
  }

  // s' is s with node j replaced.
  ghost predicate Stored(s: seq<uint32>, s': seq<uint32>, j: nat, node: Node) {
    && 16 * j + 16 <= |s| == |s'|
    && NodeAt(s', j) == node
    && forall k :: 0 <= k < |s| && (k < 16 * j || k >= 16 * j + 16) ==> s'[k] == s[k]
  }

  lemma OtherNodesStay(s: seq<uint32>, s': seq<uint32>, j: nat, node: Node, i: nat)
    requires Stored(s, s', j, node) && i != j && 16 * i + 16 <= |s|
    ensures NodeAt(s', i) == NodeAt(s, i)
  {
  }

  // What the parent loops compute from their own words.
  lemma ParentWord(s: seq<uint32>, j: nat, index: Index, i: Index)
    requires 16 * j + 16 <= |s|
    ensures Fnv(Xor32(index, i), s[16 * j + i % NODE_WORDS]) == ParentHash(index, i, NodeAt(s, j))
  {
    assert NodeAt(s, j)[i % NODE_WORDS] == s[16 * j + i % NODE_WORDS];
  }

  method CopyNode(ret: array<uint32>, j: nat, node: Node)
    requires 16 * j + 16 <= ret.Length
    modifies ret
    ensures Stored(old(ret[..]), ret[..], j, node)
  {
    for w := 0 to 16
      invariant forall k :: 0 <= k < ret.Length ==>
        ret[k] == if 16 * j <= k < 16 * j + w then node[k - 16 * j] else old(ret[k])
    {
      ret[16 * j + w] := node[w];
    }
  }

  // ret->words[w] = fnv_hash(ret->words[w], parent->words[w]) for the words of node j.
  method FnvInto(ret: array<uint32>, j: nat, parent: Node)
    requires 16 * j + 16 <= ret.Length
    modifies ret
    ensures Stored(old(ret[..]), ret[..], j, FnvNode(NodeAt(old(ret[..]), j), parent))
  {
    for w := 0 to 16
      invariant forall k :: 0 <= k < ret.Length ==>
        ret[k] == if 16 * j <= k < 16 * j + w then Fnv(old(ret[k]), parent[k - 16 * j]) else old(ret[k])
    {
      ret[16 * j + w] := Fnv(ret[16 * j + w], parent[w]);
    }
  }

  method HashInto(ret: array<uint32>, j: nat, h: Hashes)
    requires 16 * j + 16 <= ret.Length
    modifies ret
    ensures Stored(old(ret[..]), ret[..], j, h.sha512(NodeAt(old(ret[..]), j)))
  {
    CopyNode(ret, j, h.sha512(ret[16 * j..16 * j + 16]));
  }

  // The cache node copied, its first word xored with the index, and the whole hashed.
  method StartItem(ret: array<uint32>, j: nat, h: Hashes, init: Node, index: Index)
    requires 16 * j + 16 <= ret.Length
    modifies ret
    ensures Stored(old(ret[..]), ret[..], j, h.sha512(XorFirst(init, index)))
  {
    CopyNode(ret, j, init);
    ret[16 * j] := Xor32(ret[16 * j], index);
    assert NodeAt(ret[..], j) == XorFirst(init, index);
    HashInto(ret, j, h);
  }

  // ---- the three forms ----

  method CalculateDagItem(ret: array<uint32>, j: nat, h: Hashes, cache: seq<Node>, nodeIndex: Index, numParents: nat)
    requires 16 * j + 16 <= ret.Length && |cache| > 0 && numParents < TWO32
    modifies ret
    ensures Stored(old(ret[..]), ret[..], j, DagItem(h, cache, nodeIndex, numParents))
  {
    var numParentNodes := |cache|;
    var init := cache[nodeIndex % numParentNodes];
    StartItem(ret, j, h, init, nodeIndex);
    for i := 0 to numParents
      invariant Stored(old(ret[..]), ret[..], j, Mixed(h, cache, init, nodeIndex, i))
    {
      ParentWord(ret[..], j, nodeIndex, i);
      var parentIndex := Fnv(Xor32(nodeIndex, i), ret[16 * j + i % NODE_WORDS]) % numParentNodes;
      FnvInto(ret, j, cache[parentIndex]);
    }
    HashInto(ret, j, h);
  }

  method CalculateDagItemOpt(ret: array<uint32>, j: nat, h: Hashes, light: Light, nodeIndex: Index, numParents: nat)
    requires 16 * j + 16 <= ret.Length && light.Valid() && numParents < TWO32
    modifies ret
    ensures Stored(old(ret[..]), ret[..], j, DagItem(h, light.cache, nodeIndex, numParents))
  {
    var init := light.cache[light.Remainder(nodeIndex, TWO32)];
    StartItem(ret, j, h, init, nodeIndex);
    for i := 0 to numParents
      invariant Stored(old(ret[..]), ret[..], j, Mixed(h, light.cache, init, nodeIndex, i))
    {
      ParentWord(ret[..], j, nodeIndex, i);
      var parentIndex := light.Remainder(Fnv(Xor32(nodeIndex, i), ret[16 * j + i % NODE_WORDS]), TWO32);
      FnvInto(ret, j, light.cache[parentIndex]);
    }
    HashInto(ret, j, h);
  }

  // (uint32_t) (index + j)
  function Wrapped(index: Index, j: nat): Index {
    (index + j) % TWO32
  }

  // The cache node item j of four starts from; the source divides the 64-bit sum here.
  function FourInit(cache: seq<Node>, index: Index, j: nat): Node
    requires |cache| > 0
  {
    cache[(index + j) % |cache|]
  }

  // Nodes 0 .. n - 1 are the mixes of n consecutive items after i parents.
  ghost predicate Consecutive(h: Hashes, cache: seq<Node>, index: Index, s: seq<uint32>, i: nat, n: nat)
    requires |cache| > 0 && i <= TWO32 && |s| == 64
  {
    && n <= 4
    && forall j :: 0 <= j < n ==> NodeAt(s, j) == Mixed(h, cache, FourInit(cache, index, j), Wrapped(index, j), i)
  }

  // One parent for each of the four nodes, all found before any node changes.
  method FindParents(ret: array<uint32>, light: Light, nodeIndex: Index, i: Index) returns (parents: seq<Node>)
    requires ret.Length == 64 && light.Valid()
    ensures |parents| == 4
    ensures forall k :: 0 <= k < 4 ==>
      parents[k] == light.cache[ParentIndex(|light.cache|, Wrapped(nodeIndex, k), i, NodeAt(ret[..], k))]
  {
    parents := [];
    for j := 0 to 4
      invariant |parents| == j
      invariant forall k :: 0 <= k < j ==>
        parents[k] == light.cache[ParentIndex(|light.cache|, Wrapped(nodeIndex, k), i, NodeAt(ret[..], k))]
    {
      ParentWord(ret[..], j, Wrapped(nodeIndex, j), i);
      var parentIndex := light.Remainder(Fnv(Xor32(Wrapped(nodeIndex, j), i), ret[16 * j + i % NODE_WORDS]), TWO32);
      parents := parents + [light.cache[parentIndex]];
    }
  }

  method MixFour(ret: array<uint32>, h: Hashes, light: Light, nodeIndex: Index, i: Index)
    requires ret.Length == 64 && light.Valid()
    requires Consecutive(h, light.cache, nodeIndex, ret[..], i, 4)
    modifies ret
    ensures Consecutive(h, light.cache, nodeIndex, ret[..], i + 1, 4)
  {
    ghost var before := ret[..];
    var parents := FindParents(ret, light, nodeIndex, i);
    for j := 0 to 4
      invariant forall k :: 0 <= k < j ==> NodeAt(ret[..], k) == FnvNode(NodeAt(before, k), parents[k])
      invariant forall k :: j <= k < 4 ==> NodeAt(ret[..], k) == NodeAt(before, k)
    {
      ghost var now := ret[..];
      FnvInto(ret, j, parents[j]);
      OthersStay(now, ret[..], j);
    }
  }

  lemma OthersStay(s: seq<uint32>, s': seq<uint32>, j: nat)
    requires |s| == |s'| == 64 && j < 4 && Stored(s, s', j, NodeAt(s', j))
    ensures forall k :: 0 <= k < 4 && k != j ==> NodeAt(s', k) == NodeAt(s, k)
  {
    forall k | 0 <= k < 4 && k != j
      ensures NodeAt(s', k) == NodeAt(s, k)
    {
      OtherNodesStay(s, s', j, NodeAt(s', j), k);
    }
  }

  method StartFour(ret: array<uint32>, h: Hashes, light: Light, nodeIndex: Index)
    requires ret.Length == 64 && light.Valid() && light.DividesBelow(nodeIndex + 4)
    modifies ret
    ensures Consecutive(h, light.cache, nodeIndex, ret[..], 0, 4)
  {
    for j := 0 to 4
      invariant Consecutive(h, light.cache, nodeIndex, ret[..], 0, j)
    {
      ghost var now := ret[..];
      var init := light.cache[light.Remainder(nodeIndex + j, nodeIndex + 4)];
      StartItem(ret, j, h, init, Wrapped(nodeIndex, j));
      OthersStay(now, ret[..], j);
    }
  }

  method HashFour(ret: array<uint32>, h: Hashes)
    requires ret.Length == 64
    modifies ret
    ensures forall j :: 0 <= j < 4 ==> NodeAt(ret[..], j) == h.sha512(NodeAt(old(ret[..]), j))
  {
    for j := 0 to 4
      invariant forall k :: 0 <= k < j ==> NodeAt(ret[..], k) == h.sha512(NodeAt(old(ret[..]), k))
      invariant forall k :: j <= k < 4 ==> NodeAt(ret[..], k) == NodeAt(old(ret[..]), k)
    {
      ghost var now := ret[..];
      HashInto(ret, j, h);
      OthersStay(now, ret[..], j);
    }
  }

  // Four items at once, with the loops over parents and items interchanged. The source adds
  // the item number in 64 bits where it selects the first cache node and cuts the sum to 32
  // bits elsewhere.
  method CalculateDagItem4Opt(ret: array<uint32>, h: Hashes, light: Light, nodeIndex: Index, numParents: nat)
    requires ret.Length == 64 && numParents < TWO32
    requires light.Valid() && light.DividesBelow(nodeIndex + 4)
    modifies ret
    ensures forall j :: 0 <= j < 4 ==>
      NodeAt(ret[..], j)
        == ItemFrom(h, light.cache, FourInit(light.cache, nodeIndex, j), Wrapped(nodeIndex, j), numParents)
  {
    StartFour(ret, h, light, nodeIndex);
    for i := 0 to numParents
      invariant Consecutive(h, light.cache, nodeIndex, ret[..], i, 4)
    {
      MixFour(ret, h, light, nodeIndex, i);
    }
    HashFour(ret, h);
  }

  // These are the items of the plain form whenever the sum is a 32-bit number or the number of
  // cache nodes divides 2^32; otherwise they start from another cache node.
  lemma FourItems(h: Hashes, cache: seq<Node>, index: Index, j: nat, numParents: nat)
    requires 0 < |cache| < TWO32 && j < 4 && numParents < TWO32
    ensures (index + j) % |cache| == Wrapped(index, j) % |cache| <==> index + j < TWO32 || TWO32 % |cache| == 0
    ensures index + j < TWO32 || TWO32 % |cache| == 0 ==>
      ItemFrom(h, cache, FourInit(cache, index, j), Wrapped(index, j), numParents)
        == DagItem(h, cache, Wrapped(index, j), numParents)
  {
    SameStart(index + j, |cache|);
  }

  lemma SameRemainder(i: nat, m: nat, n: nat)
    requires 0 < n && m <= i
    ensures i % n == (i - m) % n <==> m % n == 0
  {
    var q, r := (i - m) / n, (i - m) % n;
    var p, s := m / n, m % n;
    assert i - m == n * q + r && m == n * p + s;
    if r + s < n {
      assert i == (q + p) * n + (r + s);
      Numbers.DivisionIs(i, n, q + p, r + s);
    } else {
      assert i == (q + p + 1) * n + (r + s - n);
      Numbers.DivisionIs(i, n, q + p + 1, r + s - n);
    }
  }

  // An item past the 32-bit numbers starts from the node of its 32-bit index exactly when the
  // number of nodes divides 2^32; from there on the two forms agree.
  lemma SameStart(i: nat, n: nat)
    requires 0 < n < TWO32 && i < 2 * TWO32
    ensures i % n == i % TWO32 % n <==> i < TWO32 || TWO32 % n == 0
  {
    if i < TWO32 {
      Numbers.SmallModulo(i, TWO32);
    } else {
      Numbers.DivisionIs(i, TWO32, 1, i - TWO32);
      SameRemainder(i, TWO32, n);
    }
  }

  // ---- the full dataset ----

  // Every node of the dataset is its item.
  ghost predicate IsDataset(h: Hashes, cache: seq<Node>, full: seq<uint32>)
    requires |cache| > 0
  {
    && |full| % 16 == 0 && |full| / 16 < TWO32
    && forall n :: 0 <= n < |full| / 16 ==> NodeAt(full, n) == DagItem(h, cache, n, DATASET_PARENTS)
  }

  // The progress callback: `stops` tells for which nodes it would ask to stop when it is
  // called before them.
  datatype Callback = NoCallback | Callback(stops: nat -> bool)

  // It is called for every hundredth part of the nodes.
  predicate AskedAt(maxN: nat, n: nat) {
    maxN >= 100 && n % (maxN / 100) == 0
  }

  predicate StopsAt(callback: Callback, maxN: nat, n: nat) {
    callback.Callback? && AskedAt(maxN, n) && callback.stops(n)
  }

  lemma WholePages(fullSize: nat)
    requires fullSize % 128 == 0
    ensures 16 * (fullSize / 64) == fullSize / 4
  {
  }

  // With a callback the source divides by a hundredth of the number of nodes. Sizes are in
  // bytes.
  method ComputeFullData(mem: array<uint32>, fullSize: nat, h: Hashes, cache: seq<Node>, callback: Callback)
    returns (ok: bool)
    requires |cache| > 0 && fullSize / 64 < TWO32 && fullSize <= 4 * mem.Length
    requires callback.Callback? ==> fullSize / 64 == 0 || fullSize / 64 >= 100
    modifies mem
    ensures ok <==> fullSize % 128 == 0 && forall n :: 0 <= n < fullSize / 64 ==> !StopsAt(callback, fullSize / 64, n)
    ensures ok ==> IsDataset(h, cache, mem[..fullSize / 4]) && mem[fullSize / 4..] == old(mem[fullSize / 4..])
    ensures fullSize % 128 != 0 ==> mem[..] == old(mem[..])
    ensures !ok && fullSize % 128 == 0 ==>
      exists n :: 0 <= n < fullSize / 64 && StopsAt(callback, fullSize / 64, n)
        && IsDataset(h, cache, mem[..16 * n]) && mem[16 * n..] == old(mem[16 * n..])
  {
    if fullSize % (4 * MIX_WORDS) != 0 || fullSize % 64 != 0 {
      return false;
    }
    var maxN := fullSize / 64;
    WholePages(fullSize);
    var n := FillNodes(mem, maxN, h, cache, callback);
    return n == maxN;
  }

  ghost predicate Filled(h: Hashes, cache: seq<Node>, s: seq<uint32>, n: nat)
    requires |cache| > 0 && n < TWO32 && 16 * n <= |s|
  {
    forall k :: 0 <= k < n ==> NodeAt(s, k) == DagItem(h, cache, k, DATASET_PARENTS)
  }

  // Nodes are filled up to the first at which the callback asks to stop.
  method FillNodes(mem: array<uint32>, maxN: nat, h: Hashes, cache: seq<Node>, callback: Callback) returns (n: nat)
    requires |cache| > 0 && maxN < TWO32 && 16 * maxN <= mem.Length
    requires callback.Callback? ==> maxN == 0 || maxN >= 100
    modifies mem
    ensures n <= maxN && IsDataset(h, cache, mem[..16 * n]) && mem[16 * n..] == old(mem[16 * n..])
    ensures n < maxN ==> StopsAt(callback, maxN, n)
    ensures forall k :: 0 <= k < n ==> !StopsAt(callback, maxN, k)
  {
    n := 0;
    while n != maxN && !(callback.Callback? && n % (maxN / 100) == 0 && callback.stops(n))
      invariant n <= maxN && Filled(h, cache, mem[..], n)
      invariant forall k :: 0 <= k < n ==> !StopsAt(callback, maxN, k)
      invariant mem[16 * n..] == old(mem[16 * n..])
    {
      FillOne(mem, n, h, cache);
      n := n + 1;
    }
    FilledIsDataset(h, cache, mem[..], n);
  }

  method FillOne(mem: array<uint32>, n: nat, h: Hashes, cache: seq<Node>)
    requires |cache| > 0 && n + 1 < TWO32 && 16 * n + 16 <= mem.Length && Filled(h, cache, mem[..], n)
    modifies mem
    ensures Filled(h, cache, mem[..], n + 1)
    ensures mem[16 * n + 16..] == old(mem[16 * n + 16..])
  {
    CalculateDagItem(mem, n, h, cache, n, DATASET_PARENTS);
    EarlierNodesStay(old(mem[..]), mem[..], n);
  }

  lemma FilledIsDataset(h: Hashes, cache: seq<Node>, s: seq<uint32>, n: nat)
    requires |cache| > 0 && n < TWO32 && 16 * n <= |s| && Filled(h, cache, s, n)
    ensures IsDataset(h, cache, s[..16 * n])
  {
    forall k | 0 <= k < n
      ensures NodeAt(s[..16 * n], k) == DagItem(h, cache, k, DATASET_PARENTS)
    {
      assert NodeAt(s[..16 * n], k) == NodeAt(s, k);
    }
  }

  lemma EarlierNodesStay(s: seq<uint32>, s': seq<uint32>, n: nat)
    requires 16 * n + 16 <= |s| == |s'| && Stored(s, s', n, NodeAt(s', n))
    ensures forall k :: 0 <= k < n ==> NodeAt(s', k) == NodeAt(s, k)
  {
    forall k | 0 <= k < n
      ensures NodeAt(s', k) == NodeAt(s, k)
    {
      OtherNodesStay(s, s', n, NodeAt(s', n), k);
    }
  }

  // ---- the hash ----

  // The page of the dataset an access reads.
  function Page(pages: nat, seed: uint32, i: Index, mixWord: uint32): (p: nat)
    requires pages > 0
    ensures p < pages
  {
    Fnv(Xor32(seed, i), mixWord) % pages
  }

  type Mix = s: seq<uint32> | |s| == 32 witness seq(32, i => 0)

  function Doubled(s: seq<uint32>): seq<uint32> {
    s + s
  }

  // One access mixes in the two items of a page.
  function AfterAccess(h: Hashes, cache: seq<Node>, mix: Mix, page: nat): Mix
    requires |cache| > 0 && 2 * page + 1 < TWO32
  {
    FnvNode(mix[..16], DagItem(h, cache, 2 * page, DATASET_PARENTS))
      + FnvNode(mix[16..], DagItem(h, cache, 2 * page + 1, DATASET_PARENTS))
  }

  // The mix after k accesses, when the dataset holds the items.
  function Accessed(h: Hashes, cache: seq<Node>, pages: nat, seed: Node, k: nat): Mix
    requires |cache| > 0 && 0 < pages && 2 * pages < TWO32 && k <= ACCESSES
  {
    if k == 0 then Doubled(seed)
    else
      var mix := Accessed(h, cache, pages, seed, k - 1);
      AfterAccess(h, cache, mix, Page(pages, seed[0], k - 1, mix[(k - 1) % MIX_WORDS]))
  }

  function Reduce(a: uint32, b: uint32, c: uint32, d: uint32): uint32 {
    Fnv(Fnv(Fnv(a, b), c), d)
  }

  // The mix hash: eight words, each from four of the mix.
  function Compressed(mix: Mix): (c: seq<uint32>)
    ensures |c| == 8
    ensures forall k :: 0 <= k < 8 ==> c[k] == Reduce(mix[4 * k], mix[4 * k + 1], mix[4 * k + 2], mix[4 * k + 3])
  {
    seq(8, k requires 0 <= k < 8 => Reduce(mix[4 * k], mix[4 * k + 1], mix[4 * k + 2], mix[4 * k + 3]))
  }

  // What ethash promises: the mix hash and the result for a header and nonce.
  function Hash(h: Hashes, cache: seq<Node>, pages: nat, headerAndNonce: seq<uint32>): (seq<uint32>, seq<uint32>)
    requires |cache| > 0 && 0 < pages && 2 * pages < TWO32
  {
    var seed := h.sha512(headerAndNonce);
    var c := Compressed(Accessed(h, cache, pages, seed, ACCESSES));
    (c, h.sha256(seed + c))
  }

  // A dataset of this many pages at the start of the memory, if there is one.
  ghost predicate Holds(full: array?<uint32>, h: Hashes, cache: seq<Node>, pages: nat)
    requires |cache| > 0
    reads full
  {
    full != null ==> 32 * pages <= full.Length && IsDataset(h, cache, full[..32 * pages])
  }

  // dag_node: read from the dataset, or computed into a temporary node when there is none.
  method DagNode(full: array?<uint32>, h: Hashes, cache: seq<Node>, n: nat, ghost pages: nat) returns (node: Node)
    requires |cache| > 0 && n < TWO32 && n < 2 * pages && Holds(full, h, cache, pages)
    ensures node == DagItem(h, cache, n, DATASET_PARENTS)
  {
    if full != null {
      node := full[16 * n..16 * n + 16];
      assert node == NodeAt(full[..32 * pages], n);
    } else {
      var tmp := new uint32[16];
      CalculateDagItem(tmp, 0, h, cache, n, DATASET_PARENTS);
      node := tmp[0..16];
      assert node == NodeAt(tmp[..], 0);
    }
  }

  // mix[n] = fnv of mix[n] and the dag node, for both halves of the mix.
  method Access(mix: array<uint32>, full: array?<uint32>, h: Hashes, cache: seq<Node>, index: nat, ghost pages: nat)
    requires mix.Length == 32 && mix != full && |cache| > 0 && 2 * index + 1 < TWO32
    requires index < pages && Holds(full, h, cache, pages)
    modifies mix
    ensures mix[..] == AfterAccess(h, cache, old(mix[..]), index)
  {
    ghost var before := mix[..];
    var node := DagNode(full, h, cache, MIX_NODES * index, pages);
    FnvInto(mix, 0, node);
    ghost var half := mix[..];
    node := DagNode(full, h, cache, MIX_NODES * index + 1, pages);
    FnvInto(mix, 1, node);
    assert NodeAt(before, 0) == before[..16] && NodeAt(half, 1) == before[16..];
    assert mix[..] == NodeAt(mix[..], 0) + NodeAt(mix[..], 1);
    OtherNodesStay(half, mix[..], 1, NodeAt(mix[..], 1), 0);
  }

  // The compression writes word w / 4 after reading words w to w + 3, so it never writes a
  // word it still has to read.
  method CompressMix(mix: array<uint32>)
    requires mix.Length == 32
    modifies mix
    ensures mix[..8] == Compressed(old(mix[..]))
  {
    for k := 0 to 8
      invariant forall i :: 0 <= i < k ==> mix[i] == Compressed(old(mix[..]))[i]
      invariant forall w :: 4 * k <= w < 32 ==> mix[w] == old(mix[w])
    {
      mix[k] := Reduce(mix[4 * k], mix[4 * k + 1], mix[4 * k + 2], mix[4 * k + 3]);
    }
  }

  // The accesses to the dataset, or to the nodes computed in its place.
  method AccessAll(mix: array<uint32>, full: array?<uint32>, h: Hashes, cache: seq<Node>, pages: nat, seed: Node)
    requires mix.Length == 32 && mix != full && |cache| > 0 && 0 < pages && 2 * pages < TWO32
    requires mix[..] == Doubled(seed) && Holds(full, h, cache, pages)
    modifies mix
    ensures mix[..] == Accessed(h, cache, pages, seed, ACCESSES)
  {
    for i := 0 to ACCESSES
      invariant mix[..] == Accessed(h, cache, pages, seed, i)
      invariant Holds(full, h, cache, pages)
    {
      AccessOne(mix, full, h, cache, pages, seed, i);
    }
  }

  method AccessOne(mix: array<uint32>, full: array?<uint32>, h: Hashes, cache: seq<Node>, pages: nat,
                   seed: Node, i: nat)
    requires mix.Length == 32 && mix != full && |cache| > 0 && 0 < pages && 2 * pages < TWO32 && i < ACCESSES
    requires mix[..] == Accessed(h, cache, pages, seed, i) && Holds(full, h, cache, pages)
    modifies mix
    ensures mix[..] == Accessed(h, cache, pages, seed, i + 1)
  {
    var index := Fnv(Xor32(seed[0], i), mix[i % MIX_WORDS]) % pages;
    Access(mix, full, h, cache, index, pages);
  }

  // ethash_hash, with the dataset or without: for every header, nonce and size of at least
  // one page the answer is the same, and every access is within the dataset.
  method EthashHash(full: array?<uint32>, h: Hashes, cache: seq<Node>, fullSize: nat, headerAndNonce: seq<uint32>)
    returns (ok: bool, mixHash: seq<uint32>, result: seq<uint32>)
    requires |cache| > 0 && fullSize >= 128 && fullSize / 64 < TWO32 && Holds(full, h, cache, fullSize / 128)
    ensures ok <==> fullSize % MIX_WORDS == 0
    ensures ok ==> (mixHash, result) == Hash(h, cache, fullSize / 128, headerAndNonce)
  {
    mixHash, result := [], [];
    if fullSize % MIX_WORDS != 0 {
      return false, [], [];
    }
    var seed := h.sha512(headerAndNonce);
    var mix := new uint32[32](w requires 0 <= w < 32 => seed[w % 16]);
    assert mix[..] == Doubled(seed);
    AccessAll(mix, full, h, cache, fullSize / 128, seed);
    CompressMix(mix);
    mixHash := mix[..8];
    result := h.sha256(seed + mixHash);
    return true, mixHash, result;
  }

  // A memory of any size filled by ethash_compute_full_data, and no dataset at all: the same
  // mix hash and the same result.
  method HashBothWays(mem: array<uint32>, fullSize: nat, h: Hashes, cache: seq<Node>, headerAndNonce: seq<uint32>)
    returns (filled: (seq<uint32>, seq<uint32>), light: (seq<uint32>, seq<uint32>))
    requires |cache| > 0 && fullSize >= 128 && fullSize % 128 == 0 && fullSize / 64 < TWO32
    requires fullSize <= 4 * mem.Length
    modifies mem
    ensures filled == light == Hash(h, cache, fullSize / 128, headerAndNonce)
  {
    var ok := ComputeFullData(mem, fullSize, h, cache, NoCallback);
    assert fullSize / 4 == 32 * (fullSize / 128);
    var ok0, mixHash0, result0 := EthashHash(mem, h, cache, fullSize, headerAndNonce);
    var ok1, mixHash1, result1 := EthashHash(null, h, cache, fullSize, headerAndNonce);
    filled, light := (mixHash0, result0), (mixHash1, result1);
  }
}
