/** Who owns which data block: the invariant behind the zone bitmap of fs/fs.c. */
module Ownership {
  const DATA_START: int := 10
  const NR_BLOCKS: int := 4096

  /** Block numbers of each inode, in file order. */
  type Held = map<int, seq<int>>

  ghost predicate Holds(held: Held, b: int) {
    exists n, i :: n in held && 0 <= i < |held[n]| && held[n][i] == b
  }

  /** No block belongs to two places of any files, every owned block is a data
      block, and the bitmap is the reserved blocks plus the owned ones. */
  ghost predicate Owned(held: Held, used: set<int>) {
    && (forall n, i :: n in held && 0 <= i < |held[n]| ==> DATA_START <= held[n][i] < NR_BLOCKS)
    && (forall n, i, m, j ::
          (n in held && m in held && 0 <= i < |held[n]| && 0 <= j < |held[m]| && held[n][i] == held[m][j])
          ==> n == m && i == j)
    && (forall b :: b in used <==> 0 <= b < DATA_START || Holds(held, b))
  }

  /** A clear bit of the bitmap is nobody's block, so a file may take it. */
  lemma Take(held: Held, used: set<int>, n: int, b: int)
    requires Owned(held, used) && n in held && b !in used && 0 <= b < NR_BLOCKS
    ensures Owned(held[n := held[n] + [b]], used + {b})
  {
    var after := held[n := held[n] + [b]];
    assert b >= DATA_START && !Holds(held, b);
    forall x
      ensures Holds(after, x) <==> Holds(held, x) || x == b
    {
      if Holds(held, x) {
        var m, i :| m in held && 0 <= i < |held[m]| && held[m][i] == x;
        assert m in after && after[m][i] == x;
      }
      assert after[n][|held[n]|] == b;
    }
  }

  /** Giving back the last block of a file clears exactly the bit of a block nobody owns then. */
  lemma Give(held: Held, used: set<int>, n: int)
    requires Owned(held, used) && n in held && held[n] != []
    ensures var last := |held[n]| - 1;
            Owned(held[n := held[n][..last]], used - {held[n][last]})
  {
    var b := held[n][|held[n]| - 1];
    var after := held[n := held[n][..|held[n]| - 1]];
    assert DATA_START <= b;
    forall x
      ensures Holds(after, x) <==> Holds(held, x) && x != b
    {
      HoldsLess(held, n, x);
    }
  }

  lemma HoldsLess(held: Held, n: int, x: int)
    requires n in held && held[n] != []
    requires forall m, i, j :: (m in held && 0 <= i < |held[m]| && 0 <= j < |held[n]| && held[m][i] == held[n][j])
                               ==> m == n && i == j
    ensures var last := |held[n]| - 1;
            Holds(held[n := held[n][..last]], x) <==> Holds(held, x) && x != held[n][last]
  {
    var last := |held[n]| - 1;
    var after := held[n := held[n][..last]];
    if Holds(held, x) && x != held[n][last] {
      var m, i :| m in held && 0 <= i < |held[m]| && held[m][i] == x;
      assert m in after && after[m][i] == x;
    }
    if Holds(after, x) {
      var m, i :| m in after && 0 <= i < |after[m]| && after[m][i] == x;
      assert m in held && held[m][i] == x;
      assert x != held[n][last];
    }
  }

  function Of(held: Held, n: int): seq<int> {
    if n in held then held[n] else []
  }

  /** Only the blocks matter: files that come or go holding nothing change no ownership. */
  lemma SameBlocks(held: Held, after: Held, used: set<int>)
    requires Owned(held, used) && forall n :: Of(held, n) == Of(after, n)
    ensures Owned(after, used)
  {
    forall n | n in after && after[n] != []
      ensures n in held && held[n] == after[n]
    {
      assert Of(held, n) == Of(after, n);
    }
    forall x
      ensures Holds(after, x) <==> Holds(held, x)
    {
      if Holds(held, x) {
        var m, i :| m in held && 0 <= i < |held[m]| && held[m][i] == x;
        assert Of(held, m) == Of(after, m) && m in after && after[m][i] == x;
      }
    }
  }
}
