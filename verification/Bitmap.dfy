/** Bit arrays over bytes, and the first-fit scan used by every allocator of the kernel. */
module Bitmaps {
  import opened Limits

  // ---------- one byte ----------

  /** The byte in which exactly bit k is set. */
  function Mask(k: nat): bv8
    requires k < 8
  {
    if k == 0 then 1 else if k == 1 then 2 else if k == 2 then 4 else if k == 3 then 8
    else if k == 4 then 16 else if k == 5 then 32 else if k == 6 then 64 else 128
  }

  lemma MaskIsShift(k: nat)
    requires k < 8
    ensures Mask(k) == 1 << k
  {
    assert k == 0 || k == 1 || k == 2 || k == 3 || k == 4 || k == 5 || k == 6 || k == 7;
  }

  predicate ByteBit(b: bv8, k: nat)
    requires k < 8
  {
    b & Mask(k) != 0
  }

  function WriteBit(b: bv8, k: nat, value: bool): bv8
    requires k < 8
  {
    if value then b | Mask(k) else b & !Mask(k)
  }

  /** Or-ing in a mask sets one bit, and-ing with its complement clears one bit; no other bit moves. */
  lemma ByteUpdate(b: bv8, k: nat, value: bool, j: nat)
    requires k < 8 && j < 8
    ensures ByteBit(WriteBit(b, k, value), j) == (if j == k then value else ByteBit(b, j))
  {}

  // ---------- a buffer of bytes seen as bits ----------

  predicate Bit(s: seq<bv8>, i: nat)
    requires i < 8 * |s|
  {
    ByteBit(s[i / 8], i % 8)
  }

  /** All of the bits start .. start+count-1 exist and are clear. */
  predicate FreeRun(s: seq<bv8>, start: nat, count: nat) {
    && start + count <= 8 * |s|
    && forall i | start <= i < start + count :: !Bit(s, i)
  }

  /** The bits of t are those of s, except that bit i has become value. */
  predicate OneBitChanged(s: seq<bv8>, t: seq<bv8>, i: nat, value: bool) {
    && |s| == |t|
    && i < 8 * |s|
    && forall j: nat | j < 8 * |s| :: Bit(t, j) == (if j == i then value else Bit(s, j))
  }

  lemma ByteWrite(s: seq<bv8>, i: nat, value: bool)
    requires i < 8 * |s|
    ensures OneBitChanged(s, s[i / 8 := WriteBit(s[i / 8], i % 8, value)], i, value)
  {
    var t := s[i / 8 := WriteBit(s[i / 8], i % 8, value)];
    forall j: nat | j < 8 * |s|
      ensures Bit(t, j) == (if j == i then value else Bit(s, j))
    {
      if j / 8 == i / 8 {
        ByteUpdate(s[i / 8], i % 8, value, j % 8);
      }
    }
  }

  /** A bitmap over a buffer; bit k of the buffer stands for the number offset + k. */
  class Bitmap {
    const bits: array<bv8>
    const length: nat
    const offset: nat

    constructor (bits: array<bv8>, length: nat, offset: nat)
      requires length <= bits.Length
      ensures this.bits == bits && this.length == length && this.offset == offset
    {
      this.bits := bits;
      this.length := length;
      this.offset := offset;
    }

    ghost predicate Valid() {
      length <= bits.Length
    }

    /** The part of the buffer the map covers. */
    ghost function Contents(): (s: seq<bv8>)
      requires Valid()
      reads bits
      ensures |s| == length
    {
      bits[..length]
    }

    method Test(index: nat) returns (r: bool)
      requires Valid() && offset <= index < offset + 8 * length
      ensures r == Bit(Contents(), index - offset)
    {
      var idx := index - offset;
      var bytes := idx / 8;
      var bit := idx % 8;
      MaskIsShift(bit);
      r := bits[bytes] & (1 << bit) != 0;
    }

    method Set(index: nat, value: bool)
      requires Valid() && offset <= index < offset + 8 * length
      modifies bits
      ensures OneBitChanged(old(Contents()), Contents(), index - offset, value)
      ensures bits[length..] == old(bits[length..])
    {
      var idx := index - offset;
      var bytes := idx / 8;
      var bit := idx % 8;
      var b: bv8 := ByteWith(bits[bytes], bit, value);
      ghost var before := Contents();
      ByteWrite(before, idx, value);
      bits[bytes] := b;
      assert Contents() == before[bytes := b];
    }

    /** The two branches of the update: or in the mask, or and with its complement. */
    static method ByteWith(b: bv8, bit: nat, value: bool) returns (r: bv8)
      requires bit < 8
      ensures r == WriteBit(b, bit, value)
    {
      MaskIsShift(bit);
      var mask: bv8 := 1 << bit;
      if value {
        r := b | mask;
      } else {
        r := b & !mask;
      }
    }

    /** First fit: the lowest run of count clear bits, which becomes set; EOF and no change if there is none. */
    method Scan(count: nat) returns (r: int)
      requires Valid() && count > 0
      modifies bits
      ensures r == EOF ==> forall s: nat :: !FreeRun(old(Contents()), s, count)
      ensures r == EOF || r >= offset
      ensures r != EOF ==> FreeRun(old(Contents()), r - offset, count)
      ensures r != EOF ==> forall s: nat | s < r - offset :: !FreeRun(old(Contents()), s, count)
      ensures r == EOF ==> Contents() == old(Contents())
      ensures forall i: nat | i < 8 * length ::
                Bit(Contents(), i) == (Bit(old(Contents()), i) || (r != EOF && r - offset <= i < r - offset + count))
      ensures bits[length..] == old(bits[length..])
    {
      ghost var before := Contents();
      var start := FindRun(count);
      assert Contents() == before;
      if start == EOF {
        return EOF;
      }
      SetRun(start, count);
      return start + offset;
    }

    /** The search loop of the scan. */
    method FindRun(count: nat) returns (start: int)
      requires Valid() && count > 0
      ensures start == EOF ==> forall s: nat :: !FreeRun(Contents(), s, count)
      ensures start == EOF || start >= 0
      ensures start != EOF ==> FreeRun(Contents(), start, count)
      ensures start != EOF ==> forall s: nat | s < start :: !FreeRun(Contents(), s, count)
    {
      start := EOF;
      var bitsLeft := length * 8;
      var nextBit := 0;
      var counter := 0;
      while bitsLeft > 0
        invariant bitsLeft >= 0 && nextBit + bitsLeft == length * 8
        invariant counter < count && counter <= nextBit
        invariant forall i: nat | nextBit - counter <= i < nextBit :: !Bit(Contents(), i)
        invariant forall s: nat | s < nextBit - counter :: !FreeRun(Contents(), s, count)
      {
        bitsLeft := bitsLeft - 1;
        var taken := Test(offset + nextBit);
        if !taken {
          counter := counter + 1;
        } else {
          forall s: nat | s <= nextBit
            ensures !FreeRun(Contents(), s, count)
          {
            if s >= nextBit - counter {
              assert s <= nextBit < s + count;
            }
          }
          counter := 0;
        }
        nextBit := nextBit + 1;
        if counter == count {
          return nextBit - count;
        }
      }
    }

    /** The marking loop of the scan. */
    method SetRun(start: nat, count: nat)
      requires Valid() && start + count <= 8 * length
      modifies bits
      ensures forall i: nat | i < 8 * length ::
                Bit(Contents(), i) == (Bit(old(Contents()), i) || start <= i < start + count)
      ensures bits[length..] == old(bits[length..])
    {
      var bitsLeft := count;
      var nextBit := start;
      while bitsLeft > 0
        invariant nextBit + bitsLeft == start + count
        invariant forall i: nat | i < 8 * length ::
                    Bit(Contents(), i) == (Bit(old(Contents()), i) || start <= i < nextBit)
        invariant bits[length..] == old(bits[length..])
      {
        bitsLeft := bitsLeft - 1;
        Set(offset + nextBit, true);
        nextBit := nextBit + 1;
      }
    }
  }
}
