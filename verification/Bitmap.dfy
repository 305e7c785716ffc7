/** fs/bitmap.h: bitmaps over disk blocks, of which the first 512 bytes count. */
module Bitmap {
  import opened Buffers

  const SECTOR_SIZE: nat := 512
  const SECTOR_BITS: nat := 4096

  /** `1 << k` for a bit of a byte. */
  function Mask(k: nat): bv8
    requires k < 8
  {
    if k == 0 then 1 else if k == 1 then 2 else if k == 2 then 4 else if k == 3 then 8
    else if k == 4 then 16 else if k == 5 then 32 else if k == 6 then 64 else 128
  }

  predicate ByteBit(b: bv8, k: nat)
    requires k < 8
  {
    b & Mask(k) != 0
  }

  /** `_test_bit`: bit `i` of a bitmap block. */
  predicate Bit(b: seq<bv8>, i: nat)
    requires i / 8 < |b|
  {
    ByteBit(b[i / 8], i % 8)
  }

  lemma MaskLaws(b: bv8, k: nat, j: nat)
    requires k < 8 && j < 8
    ensures ByteBit(b | Mask(k), j) == (j == k || ByteBit(b, j))
    ensures ByteBit(b & !Mask(k), j) == (j != k && ByteBit(b, j))
  {
  }

  lemma LowBit(b: bv8)
    ensures ByteBit(b, 0) == (b & 1 != 0)
  {
  }

  lemma ShiftLaws(b: bv8, k: nat)
    requires k < 7
    ensures ByteBit(b >> 1, k) == ByteBit(b, k + 1)
    ensures !ByteBit(b >> 1, 7)
  {
  }

  lemma Shifted(b: bv8, half: bv8)
    requires half == b >> 1
    ensures forall k :: 0 <= k < 7 ==> ByteBit(half, k) == ByteBit(b, k + 1)
    ensures !ByteBit(half, 7)
  {
    ShiftLaws(b, 0);
    forall k | 0 <= k < 7
      ensures ByteBit(half, k) == ByteBit(b, k + 1)
    {
      ShiftLaws(b, k);
    }
    hide ByteBit;
  }

  lemma FullByte(b: bv8)
    ensures b == 0xff <==> forall k :: 0 <= k < 8 ==> ByteBit(b, k)
  {
    assert (forall k :: 0 <= k < 8 ==> ByteBit(b, k)) ==>
      ByteBit(b, 0) && ByteBit(b, 1) && ByteBit(b, 2) && ByteBit(b, 3) &&
      ByteBit(b, 4) && ByteBit(b, 5) && ByteBit(b, 6) && ByteBit(b, 7);
  }

  /** `_find_first_zero`: the least clear bit of the first `limit` bytes, or -1. */
  method FindFirstZero(addr: seq<bv8>, limit: nat) returns (zero: int)
    requires limit <= |addr|
    ensures zero == -1 || 0 <= zero < 8 * limit
    ensures zero == -1 ==> forall i :: 0 <= i < 8 * limit ==> Bit(addr, i)
    ensures zero >= 0 ==> !Bit(addr, zero) && forall i :: 0 <= i < zero ==> Bit(addr, i)
  {
    var first := 0;
    while first != limit
      invariant 0 <= first <= limit
      invariant forall i :: 0 <= i < 8 * first ==> Bit(addr, i)
    {
      FullByte(addr[first]);
      if addr[first] == 0xff {
        first := first + 1;
      } else {
        var k := FirstZeroOfByte(addr[first]);
        zero := 8 * first + k;
        assert zero / 8 == first && zero % 8 == k;
        return;
      }
    }
    return -1;
  }

  /** The inner loop of `_find_first_zero`. */
  method FirstZeroOfByte(b: bv8) returns (k: nat)
    requires b != 0xff
    ensures k < 8 && !ByteBit(b, k) && forall i :: 0 <= i < k ==> ByteBit(b, i)
  {
    hide ByteBit;
    var tmp := b;
    k := 0;
    FullByte(b);
    LowBit(tmp);
    while tmp & 1 != 0
      invariant 0 <= k <= 8
      invariant forall i :: 0 <= i < k ==> ByteBit(b, i)
      invariant forall i :: 0 <= i < 8 ==> ByteBit(tmp, i) == (k + i < 8 && ByteBit(b, k + i))
      invariant ByteBit(tmp, 0) == (tmp & 1 != 0)
      decreases 8 - k
    {
      Shifted(tmp, tmp >> 1);
      tmp := tmp >> 1;
      k := k + 1;
      LowBit(tmp);
    }
  }

  /** `_set_n_bit` on a zeroed area: exactly the first `count` bits become set. */
  method SetNBit(addr: array<bv8>, count: nat)
    requires (count + 7) / 8 <= addr.Length
    requires forall i :: 0 <= i < addr.Length ==> addr[i] == 0
    modifies addr
    ensures forall i :: 0 <= i < 8 * addr.Length ==> Bit(addr[..], i) == (i < count)
  {
    var bytes, bits := count / 8, count % 8;
    var p := 0;
    bytes := bytes - 1;
    while bytes >= 0
      invariant bytes == count / 8 - 1 - p && 0 <= p <= count / 8
      invariant forall i :: 0 <= i < addr.Length ==> addr[i] == if i < p then 0xff else 0
    {
      addr[p] := 0xff;
      p := p + 1;
      bytes := bytes - 1;
    }
    ghost var full := p;
    if bits != 0 {
      addr[p] := 1;
      bits := bits - 1;
      while bits != 0
        invariant 0 <= bits < count % 8
        invariant forall i :: 0 <= i < addr.Length && i != p ==> addr[i] == if i < p then 0xff else 0
        invariant addr[p] == LowBits(count % 8 - bits)
      {
        addr[p] := (addr[p] << 1) | 1;
        bits := bits - 1;
      }
    }
    forall i | 0 <= i < 8 * addr.Length
      ensures Bit(addr[..], i) == (i < count)
    {
      FullByte(addr[i / 8]);
      LowBitsBits(count % 8, i % 8);
      NoBits(i % 8);
    }
  }

  /** The byte whose lowest `n` bits are set. */
  function LowBits(n: nat): bv8
    requires n <= 8
  {
    if n == 0 then 0 else (LowBits(n - 1) << 1) | 1
  }

  lemma {:induction false} LowBitsBits(n: nat, k: nat)
    requires n <= 8 && k < 8
    ensures ByteBit(LowBits(n), k) == (k < n)
  {
    if n == 0 {
    } else {
      var b := LowBits(n - 1);
      if k > 0 { LowBitsBits(n - 1, k - 1); }
      assert ByteBit((b << 1) | 1, k) == (k == 0 || ByteBit(b, k - 1));
    }
  }

  lemma NoBits(k: nat)
    requires k < 8
    ensures !ByteBit(0, k) && ByteBit(0xff, k)
  {
  }

  /** The blocks `start`..`end` of `dev` that hold one bitmap. */
  datatype Area = Area(dev: int, start: int, end: int) {
    ghost predicate On(disk: Disk) {
      start <= end && forall blk :: start <= blk < end ==> Key(dev, blk) in disk
    }

    function Bits(): int { (end - start) * SECTOR_BITS }

    /** The block that holds bit `i`. */
    function Home(i: int): Key { Key(dev, start + i / SECTOR_BITS) }

    ghost predicate Test(disk: Disk, i: int) {
      0 <= i < Bits() && Home(i) in disk && Bit(disk[Home(i)], i % SECTOR_BITS)
    }

    ghost function Set(disk: Disk): (r: set<int>)
      ensures forall i :: i in r <==> Test(disk, i)
    {
      set i | 0 <= i < Bits() && Test(disk, i)
    }
  }

  function ByteWith(b: bv8, k: nat, on: bool): bv8
    requires k < 8
  {
    if on then b | Mask(k) else b & !Mask(k)
  }

  lemma ByteWithLaw(b: bv8, k: nat, on: bool, j: nat)
    requires k < 8 && j < 8
    ensures ByteBit(ByteWith(b, k, on), j) == if j == k then on else ByteBit(b, j)
  {
    MaskLaws(b, k, j);
    hide Mask, ByteBit;
  }

  /** `_set_bit` and `_unset_bit`: `b` with bit `i` set to `on`. */
  function WithBit(b: Block, i: nat, on: bool): (r: Block)
    requires i < SECTOR_BITS
  {
    b[i / 8 := ByteWith(b[i / 8], i % 8, on)]
  }

  lemma WithBitLaw(b: Block, i: nat, on: bool, j: nat)
    requires i < SECTOR_BITS && j < SECTOR_BITS
    ensures Bit(WithBit(b, i, on), j) == if j == i then on else Bit(b, j)
  {
    hide ByteBit, ByteWith;
    ByteWithLaw(b[i / 8], i % 8, on, j % 8);
    assert WithBit(b, i, on)[j / 8] == if j / 8 == i / 8 then ByteWith(b[i / 8], i % 8, on) else b[j / 8];
    assert j == i <==> j / 8 == i / 8 && j % 8 == i % 8;
  }

  lemma SpliceAll(b: Block, x: Block)
    ensures Splice(b, 0, x) == x
  {
  }

  /** Changing one bit of its block changes that member of the set and no other. */
  lemma SetAfter(disk: Disk, a: Area, i: int, on: bool)
    requires a.On(disk) && 0 <= i < a.Bits()
    ensures a.Home(i) in disk
    ensures var d := disk[a.Home(i) := WithBit(disk[a.Home(i)], i % SECTOR_BITS, on)];
            a.On(d) && a.Set(d) == if on then a.Set(disk) + {i} else a.Set(disk) - {i}
  {
    var d := disk[a.Home(i) := WithBit(disk[a.Home(i)], i % SECTOR_BITS, on)];
    forall j | 0 <= j < a.Bits()
      ensures a.Test(d, j) == if j == i then on else a.Test(disk, j)
    {
      WithBitLaw(disk[a.Home(i)], i % SECTOR_BITS, on, j % SECTOR_BITS);
    }
  }

  /** One bit of a block that has been read changes, and the block goes back. */
  method UpdateBit(cache: BufferCache, bh: BufferHead, a: Area, bit: int, on: bool)
    requires cache.Valid() && bh in cache.cached && bh.count == 1 && cache.Logical() == cache.disk
    requires forall b :: b in cache.buffers && b != bh ==> b.count == 0
    requires a.On(cache.disk) && 0 <= bit < a.Bits() && bh.Id() == a.Home(bit) && bh in cache.buffers
    requires a.Home(bit) in cache.disk && bh.data == cache.disk[a.Home(bit)]
    modifies cache`disk, bh
    ensures cache.Quiet() && a.On(cache.disk)
    ensures cache.disk == old(cache.disk)[a.Home(bit) := WithBit(old(cache.disk)[a.Home(bit)], bit % SECTOR_BITS, on)]
    ensures a.Set(cache.disk) == if on then old(a.Set(cache.disk)) + {bit} else old(a.Set(cache.disk)) - {bit}
  {
    hide BufferCache.ValidWith, BufferCache.Logical, Keep, Bit, WithBit, Splice;
    var at := bit % SECTOR_BITS;
    SetAfter(cache.disk, a, bit, on);
    SpliceAll(bh.data, WithBit(bh.data, at, on));
    cache.Store(bh, 0, WithBit(bh.data, at, on));
    cache.Bwrite(bh);
    cache.Brelease(bh);
    cache.QuietFacts();
  }

  /** `_bitmap_alloc`: sets the least clear bit of the area; a full area panics. */
  method BitmapAlloc(cache: BufferCache, a: Area) returns (bit: int)
    requires cache.Quiet() && a.On(cache.disk)
    requires exists i :: 0 <= i < a.Bits() && !a.Test(cache.disk, i)
    modifies cache`freeList, cache`cached, cache`holder, cache`disk, cache.buffers
    ensures cache.Quiet() && a.On(cache.disk)
    ensures 0 <= bit < a.Bits() && !old(a.Test(cache.disk, bit))
    ensures forall i :: 0 <= i < bit ==> old(a.Test(cache.disk, i))
    ensures cache.disk == old(cache.disk)[a.Home(bit) := WithBit(old(cache.disk)[a.Home(bit)], bit % SECTOR_BITS, true)]
    ensures a.Set(cache.disk) == old(a.Set(cache.disk)) + {bit}
  {
    hide BufferCache.ValidWith, BufferCache.Logical, BufferCache.CanRead, BufferCache.InCache, Keep, Bit, WithBit,
         Splice;
    var start := a.start;
    bit := 0;
    ghost var disk := cache.disk;
    while start != a.end
      invariant a.start <= start <= a.end && bit == (start - a.start) * SECTOR_BITS
      invariant cache.Quiet() && cache.disk == disk
      invariant forall i :: 0 <= i < bit ==> a.Test(disk, i)
    {
      cache.QuietFacts();
      var bh := cache.Bread(a.dev, start);
      var tmp := FindFirstZero(bh.data, SECTOR_SIZE);
      if tmp >= 0 {
        bit := bit + tmp;
        UpdateBit(cache, bh, a, bit, true);
        return;
      } else {
        bit := bit + SECTOR_BITS;
        start := start + 1;
        cache.Brelease(bh);
      }
    }
    assert false;
  }

  /** `_bitmap_free`. */
  method BitmapFree(cache: BufferCache, a: Area, bit: int)
    requires cache.Quiet() && a.On(cache.disk) && 0 <= bit < a.Bits()
    modifies cache`freeList, cache`cached, cache`holder, cache`disk, cache.buffers
    ensures cache.Quiet() && a.On(cache.disk)
    ensures cache.disk
         == old(cache.disk)[a.Home(bit) := WithBit(old(cache.disk)[a.Home(bit)], bit % SECTOR_BITS, false)]
    ensures a.Set(cache.disk) == old(a.Set(cache.disk)) - {bit}
  {
    hide BufferCache.ValidWith, BufferCache.Logical, BufferCache.CanRead, BufferCache.InCache, Keep, Bit, WithBit,
         Splice;
    cache.QuietFacts();
    var bh := cache.Bread(a.dev, a.start + bit / SECTOR_BITS);
    UpdateBit(cache, bh, a, bit, false);
  }

  /** `_bitmap_test`. */
  method BitmapTest(cache: BufferCache, a: Area, bit: int) returns (on: bool)
    requires cache.Quiet() && a.On(cache.disk) && 0 <= bit < a.Bits()
    modifies cache`freeList, cache`cached, cache`holder, cache`disk, cache.buffers
    ensures cache.Quiet() && cache.disk == old(cache.disk)
    ensures on == (bit in a.Set(cache.disk))
  {
    hide BufferCache.ValidWith, BufferCache.Logical, BufferCache.CanRead, BufferCache.InCache, Keep, Bit, WithBit,
         Splice;
    cache.QuietFacts();
    var bh := cache.Bread(a.dev, a.start + bit / SECTOR_BITS);
    var at := bit % SECTOR_BITS;
    on := Bit(bh.data, at);
    cache.Brelease(bh);
  }
}
