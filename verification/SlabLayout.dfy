/** Where the parts of a slab lie in its page: the address arithmetic of mm/slab.c. */
module SlabLayout {
  const PAGE_SIZE: int := 4096
  const SLAB_SIZE: int := 24  // sizeof(struct slab) on the i386

  /** `__align(objsize, 2)`, which rounds down. */
  function Align(objsize: nat): nat {
    objsize / 4 * 4
  }

  /** `(PAGE_SIZE - sizeof(struct slab)) / (objsz + sizeof(kmem_bufctl_t))`. */
  function ObjCnt(objsz: nat): nat {
    4072 / (objsz + 4)
  }

  /** A cache whose slabs hold something. */
  predicate LegalSize(objsz: nat) {
    objsz > 0 && objsz % 4 == 0 && ObjCnt(objsz) > 0
  }

  lemma LegalIff(objsize: nat)
    ensures LegalSize(Align(objsize)) <==> 4 <= objsize < 4072
  {
    var n := Align(objsize);
    Rounded(objsize);
    OneFits(n + 4);
    hide Align;
  }

  lemma Rounded(objsize: nat)
    ensures var n := Align(objsize); n % 4 == 0 && n <= objsize < n + 4
  {
  }

  lemma OneFits(d: nat)
    requires d > 0
    ensures 4072 / d > 0 <==> d <= 4072
  {
    var q, r := 4072 / d, 4072 % d;
    assert 4072 == q * d + r && 0 <= r < d;
    if q <= 0 {
      assert q * d <= 0;
    } else {
      assert (q - 1) * d >= 0;
    }
  }

  /** The page that `ADDR_TO_SLAB` finds; the header is 24 bytes before its end. */
  function PageOf(addr: int): int {
    addr / 4096 * 4096
  }

  function HeaderOf(addr: int): int {
    PageOf(addr) + PAGE_SIZE - SLAB_SIZE
  }

  /** `slab_obj` and `slab_bufctl`. */
  function ObjAddr(page: int, objsz: nat, i: nat): int {
    page + i * objsz
  }

  function BufctlAddr(page: int, i: nat): int {
    page + PAGE_SIZE - SLAB_SIZE - 4 * (i + 1)
  }

  /** All objects and the whole index table fit under the header. */
  lemma Fits(objsz: nat, i: nat)
    requires i < ObjCnt(objsz)
    ensures i * objsz + objsz <= ObjCnt(objsz) * objsz
    ensures ObjCnt(objsz) * objsz + 4 * ObjCnt(objsz) <= PAGE_SIZE - SLAB_SIZE
  {
    var n := ObjCnt(objsz);
    assert n * (objsz + 4) <= 4072;
    assert n * (objsz + 4) == n * objsz + 4 * n;
    assert (i + 1) * objsz <= n * objsz;
    assert (i + 1) * objsz == i * objsz + objsz;
  }

  /** In one page the objects, the table entries and the header never overlap. */
  lemma PartsDisjoint(page: int, objsz: nat, i: nat, j: nat)
    requires i < ObjCnt(objsz) && j < ObjCnt(objsz) && page % 4096 == 0
    ensures page <= ObjAddr(page, objsz, i) && ObjAddr(page, objsz, i) + objsz <= BufctlAddr(page, j)
    ensures BufctlAddr(page, j) + 4 <= HeaderOf(page) == page + 4072
    ensures i < j ==> ObjAddr(page, objsz, i) + objsz <= ObjAddr(page, objsz, j)
    ensures i < j ==> BufctlAddr(page, j) + 4 <= BufctlAddr(page, i)
  {
    Fits(objsz, i);
    if i < j {
      assert (i + 1) * objsz <= j * objsz;
      assert (i + 1) * objsz == i * objsz + objsz;
    }
    assert i * objsz >= 0;
  }

  /** The address of an object leads back to its slab and its index. */
  lemma AddrRecovers(page: int, objsz: nat, i: nat)
    requires LegalSize(objsz) && i < ObjCnt(objsz) && page % 4096 == 0
    ensures PageOf(ObjAddr(page, objsz, i)) == page
    ensures (ObjAddr(page, objsz, i) - page) / objsz == i && (ObjAddr(page, objsz, i) - page) % objsz == 0
  {
    Fits(objsz, i);
    var off := i * objsz;
    assert 0 <= off < 4096;
    DivOfProduct(i, objsz);
  }

  lemma DivOfProduct(i: nat, d: nat)
    requires d > 0
    ensures i * d / d == i && i * d % d == 0
  {
    var q, r := i * d / d, i * d % d;
    assert (i - q) * d == r;
    MultipleBound(i - q, d);
  }

  lemma MultipleBound(x: int, d: nat)
    ensures x >= 1 ==> x * d >= d
    ensures x <= -1 ==> x * d + d <= 0
  {
    if x >= 1 { assert (x - 1) * d >= 0; }
    if x <= -1 { assert (-x - 1) * d >= 0; }
  }

  /** An object has room for what was asked for exactly when the size is a multiple of four. */
  lemma AlignIff(objsize: nat)
    ensures Align(objsize) >= objsize <==> objsize % 4 == 0
    ensures objsize < 4 ==> forall i: nat, j: nat :: ObjAddr(0, Align(objsize), i) == ObjAddr(0, Align(objsize), j)
  {
    if objsize < 4 {
      forall i: nat, j: nat
        ensures ObjAddr(0, Align(objsize), i) == ObjAddr(0, Align(objsize), j)
      {
        assert i * 0 == 0 == j * 0;
      }
    }
  }
}
