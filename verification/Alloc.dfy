/** The allocators of tools/totcopy.c on the cached metadata, and what a sequence of block
    allocations claims. */
module Alloc {
  import opened Bytes
  import opened Bitmap
  import opened Volume
  import opened Metadata
  import opened Extents

  datatype Got<T> = Got(m: Meta, value: T)

  /** Unsigned 64-bit subtraction. */
  function Sub64(a: nat, b: nat): nat {
    if b <= a then a - b else (a - b) % 0x1_0000_0000_0000_0000
  }

  /** The block bitmap cache covers the volume. */
  predicate Addressable(m: Meta) {
    m.sb.totalBlocks <= BMP_MAXBLK * BITS_PER_BLOCK
  }

  function AllocInode(m: Meta): Option<Got<nat>> {
    match FirstClear(m.ibmp, 2, Min(m.sb.totalInodes, BITS_PER_BLOCK))
    case None => None
    case Some(i) =>
      Some(Got(m.(ibmp := SetBit(m.ibmp, i), sb := m.sb.(freeInodes := Sub64(m.sb.freeInodes, 1))), i))
  }

  /** Marks a run of blocks used. */
  function Claim(m: Meta, start: nat, n: nat): (r: Meta)
    requires Addressable(m) && start + n <= m.sb.totalBlocks
    ensures Addressable(r)
  {
    m.(bbmp := SetRun(m.bbmp, start, n), sb := m.sb.(freeBlocks := Sub64(m.sb.freeBlocks, n)))
  }

  function AllocBlock(m: Meta): Option<Got<nat>>
    requires Addressable(m)
  {
    match FirstClear(m.bbmp, m.sb.dataStart, m.sb.totalBlocks)
    case None => None
    case Some(i) => Some(Got(Claim(m, i, 1), i))
  }

  /** `alloc_blocks_contig`: a run of at most `count` blocks. */
  function AllocRun(m: Meta, count: nat): (r: Option<Got<Run>>)
    requires Addressable(m) && count > 0
    ensures r.Some? ==> Addressable(r.value.m) && 1 <= r.value.value.len <= count
  {
    var run := Scan(m.bbmp, m.sb.dataStart, m.sb.totalBlocks, Run(0, 0), count);
    if run.len == 0 then None
    else ScanInVolume(m, count); Some(Got(Claim(m, run.start, run.len), run))
  }

  lemma ScanInVolume(m: Meta, count: nat)
    requires Addressable(m) && count > 0
    ensures var run := Scan(m.bbmp, m.sb.dataStart, m.sb.totalBlocks, Run(0, 0), count);
      run.len > 0 ==> FreeRun(m.bbmp, m.sb.dataStart, m.sb.totalBlocks, run.start, run.len)
  {
    if m.sb.dataStart <= m.sb.totalBlocks {
      AllocIsFirstFit(m.bbmp, m.sb.dataStart, m.sb.totalBlocks, count);
    }
  }

  /** The extent loop of `do_copy`: runs are taken until `remaining` blocks are covered. */
  function AllocExtents(m: Meta, remaining: nat, logical: nat, es: seq<Extent>): (r: Option<Got<seq<Extent>>>)
    requires Addressable(m)
    ensures r.Some? ==> Addressable(r.value.m)
    decreases remaining
  {
    if remaining == 0 then Some(Got(m, es))
    else if |es| >= NUM_EXTENTS then None
    else
      match AllocRun(m, remaining)
      case None => None
      case Some(g) =>
        AllocExtents(g.m, remaining - g.value.len, logical + g.value.len,
                     es + [Extent(g.value.start, g.value.len, logical)])
  }

  /** A counter goes down by n modulo 2^64. */
  lemma CounterStep(a: nat, n: nat)
    requires a < 0x1_0000_0000_0000_0000 && n <= 0x1_0000_0000_0000_0000
    ensures Sub64(a, n) < 0x1_0000_0000_0000_0000 && (Sub64(a, n) + n) % 0x1_0000_0000_0000_0000 == a
  {
  }

  /** The inode taken is the lowest free one from 2 on; there is none exactly when all are used. */
  lemma AllocInodeIff(m: Meta)
    requires m.sb.totalInodes <= 8 * |m.ibmp|
    ensures AllocInode(m).Some? <==> exists i :: 2 <= i < m.sb.totalInodes && !Bit(m.ibmp, i)
    ensures AllocInode(m).Some? ==>
      var g := AllocInode(m).value;
      && 2 <= g.value < m.sb.totalInodes && !Bit(m.ibmp, g.value) && (forall i :: 2 <= i < g.value ==> Bit(m.ibmp, i))
      && |g.m.ibmp| == |m.ibmp| && (forall i :: 0 <= i < 8 * |m.ibmp| ==> Bit(g.m.ibmp, i) == (i == g.value || Bit(m.ibmp, i)))
      && g.m.bbmp == m.bbmp
  {
    hide Bit, SetBit;
    if AllocInode(m).Some? {
      var g := AllocInode(m).value;
      forall i | 0 <= i < 8 * |m.ibmp| ensures Bit(g.m.ibmp, i) == (i == g.value || Bit(m.ibmp, i)) { BitSetBit(m.ibmp, g.value, i); }
    }
  }

  /** The block taken for a directory is the lowest free one; there is none exactly when all data
      blocks are used. */
  lemma AllocBlockIff(m: Meta)
    requires Addressable(m)
    ensures AllocBlock(m).Some? <==> exists b :: m.sb.dataStart <= b < m.sb.totalBlocks && !Bit(m.bbmp, b)
    ensures AllocBlock(m).Some? ==>
      var b := AllocBlock(m).value.value;
      m.sb.dataStart <= b < m.sb.totalBlocks && !Bit(m.bbmp, b) && forall i :: m.sb.dataStart <= i < b ==> Bit(m.bbmp, i)
  {
    hide Bit, SetRun;
  }

  /** The run taken for file data is first-fit: the lowest free run of that length, else the run
      at the volume's end. */
  lemma AllocRunIsFirstFit(m: Meta, count: nat)
    requires Addressable(m) && count > 0 && m.sb.dataStart <= m.sb.totalBlocks && AllocRun(m, count).Some?
    ensures FirstFit(m.bbmp, m.sb.dataStart, m.sb.totalBlocks, count, AllocRun(m, count).value.value)
  {
    hide Scan, Claim, FirstFit;
    AllocIsFirstFit(m.bbmp, m.sb.dataStart, m.sb.totalBlocks, count);
  }

  // ---- what allocation claims ----

  /** m' is m with exactly the blocks bs taken: they were free data blocks, all distinct,
      no other bit changed, and the free count dropped by their number. */
  ghost predicate Claims(m: Meta, m': Meta, bs: seq<nat>)
    requires Addressable(m)
  {
    && m'.ibmp == m.ibmp
    && m'.sb == m.sb.(freeBlocks := m'.sb.freeBlocks)
    && NoDup(bs)
    && (forall i :: 0 <= i < |bs| ==> m.sb.dataStart <= bs[i] < m.sb.totalBlocks && !Bit(m.bbmp, bs[i]))
    && (forall b :: 0 <= b < m.sb.totalBlocks ==> Bit(m'.bbmp, b) == (b in bs || Bit(m.bbmp, b)))
    && (forall k :: m.sb.totalBlocks <= 8 * k && k < |m.bbmp| ==> m'.bbmp[k] == m.bbmp[k])
    && CountClear(m'.bbmp, m.sb.totalBlocks) == CountClear(m.bbmp, m.sb.totalBlocks) - |bs|
    && (|bs| <= m.sb.freeBlocks ==> m'.sb.freeBlocks == m.sb.freeBlocks - |bs|)
  }

  lemma {:induction false} SetRunBytes(bmp: seq<byte>, start: nat, n: nat, k: nat)
    requires start + n <= 8 * k && k < |bmp|
    ensures SetRun(bmp, start, n)[k] == bmp[k]
    decreases n
  {
    if n > 0 { SetRunBytes(bmp, start, n - 1, k); }
  }

  lemma ClaimClaims(m: Meta, start: nat, n: nat)
    requires Addressable(m) && m.sb.dataStart <= m.sb.totalBlocks
    requires FreeRun(m.bbmp, m.sb.dataStart, m.sb.totalBlocks, start, n)
    ensures Claims(m, Claim(m, start, n), ExtentBlocks(Extent(start, n, 0)))
  {
    hide Bit, CountClear, SetRun;
    var m', bs := Claim(m, start, n), ExtentBlocks(Extent(start, n, 0));
    CountSetRun(m.bbmp, start, n, m.sb.totalBlocks);
    forall b | 0 <= b < m.sb.totalBlocks ensures Bit(m'.bbmp, b) == (b in bs || Bit(m.bbmp, b)) {
      BitSetRun(m.bbmp, start, n, b);
      if start <= b < start + n { assert bs[b - start] == b; }
    }
    forall k | m.sb.totalBlocks <= 8 * k && k < |m.bbmp| ensures m'.bbmp[k] == m.bbmp[k] {
      SetRunBytes(m.bbmp, start, n, k);
    }
  }

  lemma ClaimsNothing(m: Meta)
    requires Addressable(m)
    ensures Claims(m, m, [])
  {
  }

  lemma ClaimsTrans(m: Meta, m1: Meta, m2: Meta, a: seq<nat>, b: seq<nat>)
    requires Addressable(m) && Claims(m, m1, a) && Claims(m1, m2, b)
    ensures Claims(m, m2, a + b)
  {
    hide Bit, CountClear;
    forall i, j | 0 <= i < j < |a + b| ensures (a + b)[i] != (a + b)[j] {
      if i < |a| && j >= |a| { assert (a + b)[i] in a; assert (a + b)[j] == b[j - |a|]; }
    }
    forall i | 0 <= i < |a + b|
      ensures m.sb.dataStart <= (a + b)[i] < m.sb.totalBlocks && !Bit(m.bbmp, (a + b)[i])
    {
      if i >= |a| { assert (a + b)[i] == b[i - |a|]; }
    }
  }

  lemma AllocBlockClaims(m: Meta)
    requires Addressable(m) && m.sb.dataStart <= m.sb.totalBlocks && AllocBlock(m).Some?
    ensures Claims(m, AllocBlock(m).value.m, [AllocBlock(m).value.value])
  {
    var i := AllocBlock(m).value.value;
    ClaimClaims(m, i, 1);
    assert ExtentBlocks(Extent(i, 1, 0)) == [i];
  }

  /** Extents whose file_block is the number of blocks before them, none of them empty. */
  ghost predicate Consecutive(es: seq<Extent>) {
    forall e :: 0 <= e < |es| ==> es[e].count > 0 && es[e].fileBlock == |Flat(es[..e])|
  }

  lemma ConsecutiveAppend(es: seq<Extent>, e: Extent)
    requires Consecutive(es) && e.count > 0 && e.fileBlock == |Flat(es)|
    ensures Consecutive(es + [e])
  {
    hide Flat;
    var all := es + [e];
    forall k | 0 <= k < |all| ensures all[k].count > 0 && all[k].fileBlock == |Flat(all[..k])| {
      if k < |es| { assert all[..k] == es[..k]; } else { assert all[..k] == es; }
    }
  }

  /** The extent loop covers exactly `remaining` further blocks with consecutive extents,
      and claims exactly those blocks. */
  lemma {:induction false} AllocExtentsClaims(m: Meta, remaining: nat, logical: nat, es: seq<Extent>) returns (added: seq<nat>)
    requires Addressable(m) && m.sb.dataStart <= m.sb.totalBlocks
    requires |es| <= NUM_EXTENTS && Consecutive(es) && logical == |Flat(es)|
    requires AllocExtents(m, remaining, logical, es).Some?
    ensures var g := AllocExtents(m, remaining, logical, es).value;
      && Claims(m, g.m, added) && |added| == remaining
      && Flat(g.value) == Flat(es) + added
      && es <= g.value && |g.value| <= NUM_EXTENTS && Consecutive(g.value)
    decreases remaining
  {
    hide Flat, Consecutive, Claims, ExtentBlocks, Claim, Scan;
    if remaining == 0 {
      added := [];
      ClaimsNothing(m);
    } else {
      var g := AllocRun(m, remaining).value;
      var e := Extent(g.value.start, g.value.len, logical);
      ScanInVolume(m, remaining);
      ClaimClaims(m, g.value.start, g.value.len);
      SameBlocks(e);
      FlatAppend(es, e);
      ConsecutiveAppend(es, e);
      ClaimedKeepsLayout(m, g.m, ExtentBlocks(e));
      var rest := AllocExtentsClaims(g.m, remaining - g.value.len, logical + g.value.len, es + [e]);
      added := ExtentBlocks(e) + rest;
      var done := AllocExtents(g.m, remaining - g.value.len, logical + g.value.len, es + [e]).value;
      ClaimsTrans(m, g.m, done.m, ExtentBlocks(e), rest);
      assert Flat(es) + ExtentBlocks(e) + rest == Flat(es) + added;
      assert es <= es + [e];
    }
  }

  lemma SameBlocks(e: Extent)
    ensures ExtentBlocks(e) == ExtentBlocks(Extent(e.start, e.count, 0))
  {
  }

  lemma ClaimedKeepsLayout(m: Meta, m': Meta, bs: seq<nat>)
    requires Addressable(m) && Claims(m, m', bs)
    ensures m'.sb == m.sb.(freeBlocks := m'.sb.freeBlocks) && m'.ibmp == m.ibmp
  {
  }
}
