/** The inode bitmap: ialloc and ifree describe a block of it to the bit scanner as eight times as long as it is. */
module InodeBitmap {
  import opened Bitmaps
  import opened Blocks
  import opened Limits
  import opened Options

  const IMAP_NR := 8

  /** Bit k of the bitmap block at the start of a stretch of memory is clear. */
  ghost predicate ClearInBlock(memory: seq<bv8>, k: nat)
    requires |memory| >= BLOCK_SIZE
  {
    k < BLOCK_BITS && !Bit(memory, k)
  }

  class InodeMap {
    const inodes: nat
    /** For each block of the bitmap, the memory that starts with it and runs on behind it. */
    const imaps: seq<array<bv8>>

    constructor (inodes: nat, imaps: seq<array<bv8>>)
      ensures this.inodes == inodes && this.imaps == imaps
    {
      this.inodes := inodes;
      this.imaps := imaps;
    }

    ghost predicate Valid() {
      && 1 <= |imaps| <= IMAP_NR
      && (forall i | 0 <= i < |imaps| :: imaps[i].Length >= BLOCK_BITS)
      && (forall i, j | 0 <= i < j < |imaps| :: imaps[i] != imaps[j])
    }

    /**
     * One turn of ialloc's loop. A bit of the block itself is found exactly if the block has a clear one, and then it
     * is the lowest; otherwise the scan runs on into the memory behind the block.
     */
    method ScanBlock(i: nat) returns (bit: int)
      requires Valid() && i < |imaps|
      modifies imaps[i]
      ensures bit == EOF || i * BLOCK_BITS <= bit < i * BLOCK_BITS + 8 * BLOCK_BITS
      ensures bit != EOF && bit < (i + 1) * BLOCK_BITS <==> exists k :: ClearInBlock(old(imaps[i][..]), k)
      ensures bit == EOF ==> old(AllSet(i)) && imaps[i][..] == old(imaps[i][..])
      ensures bit != EOF ==>
                var k := bit - i * BLOCK_BITS;
                && !Bit(old(imaps[i][..]), k)
                && (forall j: nat | j < k :: Bit(old(imaps[i][..]), j))
                && forall j: nat | j < 8 * BLOCK_BITS :: Bit(imaps[i][..], j) == (j == k || Bit(old(imaps[i][..]), j))
    {
      var bitmap := new Bitmap(imaps[i], BLOCK_BITS, i * BLOCK_BITS);
      ghost var before := imaps[i][..];
      ghost var view := bitmap.Contents();
      SameBits(before, view);
      bit := bitmap.Scan(1);
      SameBits(imaps[i][..], bitmap.Contents());
      FirstClear(view, bit - i * BLOCK_BITS, bit == EOF);
      if bit != EOF {
        assert bit < (i + 1) * BLOCK_BITS ==> ClearInBlock(before, bit - i * BLOCK_BITS);
      }
    }

    /** Every bit that a scan of block i looks at is set. */
    ghost predicate AllSet(i: nat)
      requires Valid() && i < |imaps|
      reads imaps
    {
      forall j: nat | j < 8 * BLOCK_BITS :: Bit(imaps[i][..], j)
    }

    /**
     * ialloc. None stands for a failed kernel assertion, EOF for a scan of all blocks in vain. A number handed out is
     * below the number of inodes, and block i, where it was found, comes after blocks that have no clear bit at all. The
     * last inode has the number of inodes for its number: with only that one left, the kernel stops.
     */
    method Ialloc() returns (r: Option<int>, ghost i: nat)
      requires Valid()
      modifies imaps
      ensures r == Some(EOF) ==> |imaps| == IMAP_NR && forall j | 0 <= j < |imaps| :: old(AllSet(j))
      ensures r.Some? && r.value != EOF ==>
                && i < |imaps| && i * BLOCK_BITS <= r.value < inodes
                && r.value - i * BLOCK_BITS < 8 * BLOCK_BITS
                && (forall j | 0 <= j < i :: old(AllSet(j)))
                && (r.value < (i + 1) * BLOCK_BITS <==> exists k :: ClearInBlock(old(imaps[i][..]), k))
                && !Bit(old(imaps[i][..]), r.value - i * BLOCK_BITS) && Bit(imaps[i][..], r.value - i * BLOCK_BITS)
                && forall j: nat | j < r.value - i * BLOCK_BITS :: Bit(old(imaps[i][..]), j)
      ensures r.None? ==> forall m: nat | m < inodes && m < 8 * BLOCK_BITS :: Bit(old(imaps[0][..]), m)
      ensures inodes < 8 * BLOCK_BITS && !Bit(old(imaps[0][..]), inodes) ==>
                (r.None? <==> forall m: nat | m < inodes :: Bit(old(imaps[0][..]), m))
    {
      var n := 0;
      i := 0;
      while n < IMAP_NR
        invariant 0 <= n <= |imaps| && i == n
        invariant forall j | 0 <= j < |imaps| :: imaps[j][..] == old(imaps[j][..])
        invariant forall j | 0 <= j < n :: old(AllSet(j))
        invariant n > 0 && inodes < 8 * BLOCK_BITS ==> Bit(old(imaps[0][..]), inodes)
      {
        assert n > 0 ==> old(AllSet(0));
        if n >= |imaps| {
          return None, i;
        }
        var bit := ScanBlock(n);
        if bit != EOF {
          assert n == 0 && bit < inodes < 8 * BLOCK_BITS ==> !Bit(old(imaps[0][..]), bit);
          return if bit < inodes then Some(bit) else None, i;
        }
        assert inodes < 8 * BLOCK_BITS && n == 0 ==> old(AllSet(0)) && Bit(old(imaps[0][..]), inodes);
        n := n + 1;
        i := n;
      }
      return Some(EOF), i;
    }

    /** ifree. False stands for a failed kernel assertion. The bit cleared lies in the block exactly if the number is not
        the one just behind the block's last. */
    method Ifree(n: nat) returns (ok: bool)
      requires Valid()
      modifies imaps
      ensures ok <==> n < inodes && SearchBlock(n) < |imaps| && Bit(old(imaps[SearchBlock(n)][..]), n - SearchBlock(n) * BLOCK_BITS)
      ensures ok ==>
                var i, k := SearchBlock(n), n - SearchBlock(n) * BLOCK_BITS;
                && k <= BLOCK_BITS
                && (k < BLOCK_BITS <==> n < (i + 1) * BLOCK_BITS)
                && forall j: nat | j < 8 * BLOCK_BITS :: Bit(imaps[i][..], j) == (j != k && Bit(old(imaps[i][..]), j))
      ensures ok ==> forall i | 0 <= i < |imaps| && i != SearchBlock(n) :: imaps[i][..] == old(imaps[i][..])
      ensures !ok ==> forall i | 0 <= i < |imaps| :: imaps[i][..] == old(imaps[i][..])
    {
      if n >= inodes {
        return false;
      }
      var i := 0;
      while i < IMAP_NR && n > BLOCK_BITS * (i + 1)
        invariant 0 <= i <= IMAP_NR && (i == 0 || n > BLOCK_BITS * i)
      {
        i := i + 1;
      }
      if i >= |imaps| {
        return false;
      }
      assert SearchBlock(n) == i;
      var bitmap := new Bitmap(imaps[i], BLOCK_BITS, i * BLOCK_BITS);
      SameBits(imaps[i][..], bitmap.Contents());
      var taken := bitmap.Test(n);
      if !taken {
        return false;
      }
      ghost var before := imaps[i][..];
      bitmap.Set(n, false);
      SameBits(before, before[..BLOCK_BITS]);
      SameBits(imaps[i][..], bitmap.Contents());
      ok := true;
    }
  }

  lemma SameBits(memory: seq<bv8>, view: seq<bv8>)
    requires |memory| >= |view| == BLOCK_BITS && view == memory[..BLOCK_BITS]
    ensures forall j: nat | j < 8 * BLOCK_BITS :: Bit(view, j) == Bit(memory, j)
  {}

  /** What a scan for one bit finds. */
  lemma FirstClear(view: seq<bv8>, k: int, none: bool)
    requires |view| == BLOCK_BITS
    requires if none then forall s: nat :: !FreeRun(view, s, 1) else
               k >= 0 && FreeRun(view, k, 1) && forall s: nat | s < k :: !FreeRun(view, s, 1)
    ensures forall j: nat | j < 8 * BLOCK_BITS && (none || j < k) :: Bit(view, j)
  {
    forall j: nat | j < 8 * BLOCK_BITS && (none || j < k)
      ensures Bit(view, j)
    {
      assert !FreeRun(view, j, 1);
    }
  }
}
