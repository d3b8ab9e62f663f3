/** Where the kernel heap puts its blocks: seven sizes carved out of single pages, and whole pages for the rest. */
module HeapBlocks {
  import opened Limits

  const HEADER := 16
  const CLASSES := 7
  const LARGEST := 1024

  function BlockSize(c: nat): nat
    requires c < CLASSES
  {
    if c == 0 then 16 else if c == 1 then 32 else if c == 2 then 64 else if c == 3 then 128
    else if c == 4 then 256 else if c == 5 then 512 else 1024
  }

  function TotalBlocks(c: nat): nat
    requires c < CLASSES
  {
    (PAGE_SIZE - HEADER) / BlockSize(c)
  }

  /** Each size is twice the one before, from 16 to 1024 bytes, and as many blocks are made as fit behind the header. */
  lemma Sizes(c: nat)
    requires c < CLASSES
    ensures BlockSize(0) == 16 && BlockSize(CLASSES - 1) == LARGEST && (c > 0 ==> BlockSize(c) == 2 * BlockSize(c - 1))
    ensures HEADER + TotalBlocks(c) * BlockSize(c) <= PAGE_SIZE < HEADER + (TotalBlocks(c) + 1) * BlockSize(c)
  {
    assert c == 0 || c == 1 || c == 2 || c == 3 || c == 4 || c == 5 || c == 6;
  }

  /** get_block: the address of block i of the arena on page p. */
  function Address(p: nat, c: nat, i: nat): nat
    requires c < CLASSES
  {
    p * PAGE_SIZE + HEADER + i * BlockSize(c)
  }

  /** get_arena: the page an address lies on. */
  function PageOf(a: nat): nat {
    a / PAGE_SIZE
  }

  lemma BlockEnds(c: nat, i: nat)
    requires c < CLASSES && i < TotalBlocks(c)
    ensures HEADER + i * BlockSize(c) + BlockSize(c) <= PAGE_SIZE
  {
    assert c == 0 || c == 1 || c == 2 || c == 3 || c == 4 || c == 5 || c == 6;
  }

  /** Every block lies on its arena's page behind the header, and the page gives the arena back. */
  lemma BlockInPage(p: nat, c: nat, i: nat)
    requires c < CLASSES && i < TotalBlocks(c)
    ensures p * PAGE_SIZE + HEADER <= Address(p, c, i)
    ensures Address(p, c, i) + BlockSize(c) <= (p + 1) * PAGE_SIZE
    ensures PageOf(Address(p, c, i)) == p
  {
    BlockEnds(c, i);
  }

  lemma BlocksApart(p: nat, c: nat, i: nat, j: nat)
    requires c < CLASSES && i < j
    ensures Address(p, c, i) + BlockSize(c) <= Address(p, c, j)
  {
    assert i * BlockSize(c) + BlockSize(c) == (i + 1) * BlockSize(c);
    assert (i + 1) * BlockSize(c) <= j * BlockSize(c) by {
      Monotone(i + 1, j, BlockSize(c));
    }
  }

  lemma Monotone(a: nat, b: nat, k: nat)
    requires a <= b
    ensures a * k <= b * k
  {}

  lemma AddressInjective(p: nat, c: nat, i: nat, j: nat)
    requires c < CLASSES && Address(p, c, i) == Address(p, c, j)
    ensures i == j
  {
    if i < j {
      BlocksApart(p, c, i, j);
    } else if j < i {
      BlocksApart(p, c, j, i);
    }
  }

  /** kmalloc's search for the first class that is big enough. */
  function ClassFor(size: nat): (c: nat)
    requires size <= LARGEST
    ensures c < CLASSES && size <= BlockSize(c)
    ensures forall d | 0 <= d < c :: BlockSize(d) < size
  {
    if size <= 16 then 0 else if size <= 32 then 1 else if size <= 64 then 2 else if size <= 128 then 3
    else if size <= 256 then 4 else if size <= 512 then 5 else 6
  }

  /** Pages for a block of more than a kilobyte. */
  function PagesFor(size: nat): (n: nat)
    ensures n > 0 && (n - 1) * PAGE_SIZE < size + HEADER <= n * PAGE_SIZE
  {
    (size + HEADER + PAGE_SIZE - 1) / PAGE_SIZE
  }
}
