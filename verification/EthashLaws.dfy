// What the numbers of Ethash depend on: fnv_hash in whole numbers and undone, the parent of a
// node, the page of an access, and the compression of the mix.

module EthashLaws {
  import opened Ethash
  import opened Numbers
  import opened Words
  import opened WordXor

  // ---- fnv_hash ----

  // Multiplied by this, a multiple of the prime comes back modulo 2^32.
  const FNV_INVERSE: nat := 0x359c_449b

  // With zero it is a product; the second argument is xored in, and comes out again; and the
  // first comes out too, the prime having an inverse.
  lemma FnvInNumbers(x: uint32, y: uint32)
    ensures Fnv(x, 0) == x * 16777619 % TWO32
    ensures Fnv(x, y) == Xor32(Fnv(x, 0), y) && Xor32(Fnv(x, y), y) == Fnv(x, 0)
    ensures Fnv(x, Fnv(x, y)) == y
    ensures Fnv(x, 0) * FNV_INVERSE % TWO32 == x
  {
    var p := x * FNV_PRIME % TWO32;
    XorZero(p);
    XorTwice(p, y);
    XorSwaps(p, y);
    XorTwice(y, p);
    XorSwaps(Xor(p, y), p);
    PrimeInverse(x);
  }

  lemma PrimeInverse(x: uint32)
    ensures x * FNV_PRIME % TWO32 * FNV_INVERSE % TWO32 == x
  {
    var q, r := x * FNV_PRIME / TWO32, x * FNV_PRIME % TWO32;
    assert r * FNV_INVERSE == x * FNV_PRIME * FNV_INVERSE - q * TWO32 * FNV_INVERSE;
    assert FNV_PRIME * FNV_INVERSE == 1 + 3_513_497 * TWO32;
    DivisionIs(r * FNV_INVERSE, TWO32, x * 3_513_497 - q * FNV_INVERSE, x);
  }

  lemma FnvFirst(x: uint32, x': uint32, y: uint32)
    ensures Fnv(x, y) == Fnv(x', y) <==> x == x'
  {
    FnvInNumbers(x, y);
    FnvInNumbers(x', y);
  }

  lemma FnvSecond(x: uint32, y: uint32, y': uint32)
    ensures Fnv(x, y) == Fnv(x, y') <==> y == y'
  {
    FnvInNumbers(x, y);
    FnvInNumbers(x, y');
  }

  lemma XorFirstArgument(a: uint32, a': uint32, b: uint32)
    ensures Xor32(a, b) == Xor32(a', b) <==> a == a'
  {
    XorTwice(a, b);
    XorTwice(a', b);
  }

  // ---- parents ----

  // Parent i of a node is chosen by word i modulo 16 of its mix, mixed with the index: the
  // hash gives that word back, so it changes exactly when the word or the index changes.
  lemma ParentReadsWord(index: Index, i: Index, mix: Node)
    ensures Fnv(Xor32(index, i), ParentHash(index, i, mix)) == mix[i % 16]
    ensures forall mix': Node ::
      ParentHash(index, i, mix') == ParentHash(index, i, mix) <==> mix'[i % 16] == mix[i % 16]
    ensures forall index': Index :: ParentHash(index', i, mix) == ParentHash(index, i, mix) <==> index' == index
  {
    var word := mix[i % 16];
    FnvInNumbers(Xor32(index, i), word);
    forall mix': Node
      ensures ParentHash(index, i, mix') == ParentHash(index, i, mix) <==> mix'[i % 16] == word
    {
      FnvSecond(Xor32(index, i), word, mix'[i % 16]);
    }
    forall index': Index
      ensures ParentHash(index', i, mix) == ParentHash(index, i, mix) <==> index' == index
    {
      FnvFirst(Xor32(index, i), Xor32(index', i), word);
      XorFirstArgument(index, index', i);
    }
  }

  // The node taken from the cache is the remainder of that hash.
  lemma ParentIs(n: nat, index: Index, i: Index, mix: Node, y: uint32)
    requires n > 0 && Fnv(Xor32(index, i), y) == mix[i % 16]
    ensures ParentIndex(n, index, i, mix) == y % n
  {
    FnvInNumbers(Xor32(index, i), y);
  }

  // An item starts from a cache node with its index xored into the first word.
  lemma StartReadsIndex(node: Node, index: Index)
    ensures Xor32(XorFirst(node, index)[0], index) == node[0] && XorFirst(node, index)[1..] == node[1..]
  {
    XorTwice(node[0], index);
  }

  // ---- accesses ----

  lemma PageIs(pages: nat, seed: uint32, i: Index, mixWord: uint32, y: uint32)
    requires pages > 0 && Fnv(Xor32(seed, i), y) == mixWord
    ensures Page(pages, seed, i, mixWord) == y % pages
  {
    FnvInNumbers(Xor32(seed, i), y);
  }

  // Word w of the mix takes in word w modulo 16 of the first or the second item of the page.
  lemma AccessWords(h: Hashes, cache: seq<Node>, mix: Mix, page: nat, w: nat)
    requires |cache| > 0 && 2 * page + 1 < TWO32 && w < 32
    ensures AfterAccess(h, cache, mix, page)[w]
      == Fnv(mix[w], DagItem(h, cache, 2 * page + w / 16, DATASET_PARENTS)[w % 16])
  {
    var first := DagItem(h, cache, 2 * page, DATASET_PARENTS);
    var second := DagItem(h, cache, 2 * page + 1, DATASET_PARENTS);
    HalvesOfMix(mix, first, second, w);
    if w < 16 {
      DivisionIs(w, 16, 0, w);
    } else {
      DivisionIs(w, 16, 1, w - 16);
    }
  }

  lemma HalvesOfMix(mix: Mix, first: Node, second: Node, w: nat)
    requires w < 32
    ensures (FnvNode(mix[..16], first) + FnvNode(mix[16..], second))[w]
      == Fnv(mix[w], if w < 16 then first[w] else second[w - 16])
  {
  }

  // ---- the compression ----

  // Four words become one: the last is xored in, the others are multiplied by the prime once
  // more for every word after them.
  lemma ReduceInNumbers(a: uint32, b: uint32, c: uint32, d: uint32)
    ensures Reduce(0, 0, 0, d) == d
    ensures Xor32(Reduce(a, b, c, d), d) == Reduce(a, b, c, 0)
    ensures Reduce(a, b, c, 0) == Reduce(0, a, b, c) * 16777619 % TWO32
  {
    FnvOfZero(a);
    FnvOfZero(0);
    FnvOfZero(d);
    FnvInNumbers(Fnv(Fnv(a, b), c), d);
  }

  lemma FnvOfZero(y: uint32)
    ensures Fnv(0, y) == y
  {
    XorSwaps(0, y);
    XorZero(y);
  }
}
