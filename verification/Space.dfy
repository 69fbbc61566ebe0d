/** When a copy finds room for its data: exactly, for any bitmap, and for the bitmaps that
    the two tools leave behind. */
module Space {
  import opened Bytes
  import opened Bitmap
  import opened Volume
  import opened Metadata
  import opened Dirent
  import opened Extents
  import opened Alloc
  import opened Paths
  import opened CopySpec
  import opened Invariant
  import opened FileStage
  import opened CopyResults
  import opened Runs

  // ---- any bitmap ----

  /** Length of the free run that ends at hi. */
  function TailFree(bmp: seq<byte>, lo: nat, hi: nat): (t: nat)
    requires hi <= 8 * |bmp|
    ensures t <= hi && (lo <= hi ==> t <= hi - lo && (t == hi - lo || Bit(bmp, hi - t - 1)))
    ensures forall k :: hi - t <= k < hi ==> !Bit(bmp, k)
  {
    if hi <= lo || Bit(bmp, hi - 1) then 0 else 1 + TailFree(bmp, lo, hi - 1)
  }

  function Tail(m: Meta): (t: nat)
    requires Addressable(m)
    ensures t <= m.sb.totalBlocks
  {
    TailFree(m.bbmp, m.sb.dataStart, m.sb.totalBlocks)
  }

  /** n free blocks in a row that end at or before block hi. */
  ghost predicate RunBelow(m: Meta, hi: nat, n: nat)
    requires hi <= BMP_MAXBLK * BITS_PER_BLOCK
  {
    exists s: nat :: FreeRun(m.bbmp, m.sb.dataStart, hi, s, n)
  }

  ghost predicate HasRun(m: Meta, n: nat)
    requires Addressable(m)
  {
    RunBelow(m, m.sb.totalBlocks, n)
  }

  /** Room for n blocks, as the extent loop finds it: one run, or the run at the end of the
      volume and one run for the rest. */
  ghost predicate HasSpace(m: Meta, n: nat)
    requires Addressable(m)
  {
    n == 0 || HasRun(m, n) || (0 < Tail(m) < n && RunBelow(m, m.sb.totalBlocks - Tail(m), n - Tail(m)))
  }

  lemma MaximalTail(bmp: seq<byte>, lo: nat, hi: nat, n: nat)
    requires lo <= hi <= 8 * |bmp| && n <= hi - lo
    requires FreeRun(bmp, lo, hi, hi - n, n) && (hi - n == lo || Bit(bmp, hi - n - 1))
    ensures n == TailFree(bmp, lo, hi)
  {
    hide Bit, TailFree;
    var t := TailFree(bmp, lo, hi);
  }

  /** One call of the allocator: the full run if there is one, else the tail. */
  lemma RunShape(m: Meta, n: nat)
    requires Addressable(m) && m.sb.dataStart <= m.sb.totalBlocks && n > 0
    ensures HasRun(m, n) ==> AllocRun(m, n).Some? && AllocRun(m, n).value.value.len == n
    ensures !HasRun(m, n) ==>
      && Tail(m) < n
      && (AllocRun(m, n).Some? <==> Tail(m) > 0)
      && (Tail(m) > 0 ==> AllocRun(m, n).value.value == Run(m.sb.totalBlocks - Tail(m), Tail(m)))
  {
    hide Bit, Scan, TailFree, Claim;
    var lo, hi := m.sb.dataStart, m.sb.totalBlocks;
    AllocIsFirstFit(m.bbmp, lo, hi, n);
    if !HasRun(m, n) { MaximalTail(m.bbmp, lo, hi, Scan(m.bbmp, lo, hi, Run(0, 0), n).len); }
  }

  /** Once the tail is taken, only runs below it are left, and the last block is used. */
  lemma TailTaken(m: Meta, n: nat)
    requires Addressable(m) && m.sb.dataStart <= m.sb.totalBlocks && n > 0
    requires 0 < Tail(m)
    ensures var m1 := Claim(m, m.sb.totalBlocks - Tail(m), Tail(m));
      Tail(m1) == 0 && (HasRun(m1, n) <==> RunBelow(m, m.sb.totalBlocks - Tail(m), n))
  {
    hide Bit, SetRun;
    var lo, hi, t := m.sb.dataStart, m.sb.totalBlocks, Tail(m);
    var m1 := Claim(m, hi - t, t);
    forall b | 0 <= b < hi ensures Bit(m1.bbmp, b) == (hi - t <= b || Bit(m.bbmp, b)) { BitSetRun(m.bbmp, hi - t, t, b); }
    if HasRun(m1, n) {
      var s: nat :| FreeRun(m1.bbmp, lo, hi, s, n);
      assert !Bit(m1.bbmp, s + n - 1);
      assert FreeRun(m.bbmp, lo, hi - t, s, n);
    }
    if RunBelow(m, hi - t, n) {
      var s: nat :| FreeRun(m.bbmp, lo, hi - t, s, n);
      assert FreeRun(m1.bbmp, lo, hi, s, n);
    }
  }

  lemma AllocExtentsStep(m: Meta, n: nat, logical: nat, es: seq<Extent>)
    requires Addressable(m) && n > 0 && |es| < NUM_EXTENTS
    ensures var r, g := AllocExtents(m, n, logical, es), AllocRun(m, n);
      match g
      case None => r == None
      case Some(g) => r == AllocExtents(g.m, n - g.value.len, logical + g.value.len, es + [Extent(g.value.start, g.value.len, logical)])
  {
    hide AllocRun;
  }

  lemma AllocExtentsDone(m: Meta, logical: nat, es: seq<Extent>)
    requires Addressable(m)
    ensures AllocExtents(m, 0, logical, es) == Some(Got(m, es))
  {
  }

  lemma ClaimedRun(m: Meta, n: nat)
    requires Addressable(m) && n > 0 && AllocRun(m, n).Some?
    ensures var g := AllocRun(m, n).value;
      && g.value.start + g.value.len <= m.sb.totalBlocks && g.m == Claim(m, g.value.start, g.value.len)
      && g.m.sb.dataStart == m.sb.dataStart && g.m.sb.totalBlocks == m.sb.totalBlocks
  {
    hide Scan, SetRun;
    ScanInVolume(m, n);
  }

  /** The extent loop finds room exactly when there is a run of n, or the tail and a run for
      the rest; it then needs at most two extents. */
  lemma DataSpaceIff(m: Meta, n: nat)
    requires Addressable(m) && m.sb.dataStart <= m.sb.totalBlocks
    ensures AllocExtents(m, n, 0, []).Some? <==> HasSpace(m, n)
    ensures AllocExtents(m, n, 0, []).Some? ==> |AllocExtents(m, n, 0, []).value.value| <= 2
  {
    hide AllocExtents, AllocRun, RunBelow, TailFree, Claim;
    if n == 0 {
      AllocExtentsDone(m, 0, []);
    } else {
      RunShape(m, n);
      AllocExtentsStep(m, n, 0, []);
      if AllocRun(m, n).Some? {
        ClaimedRun(m, n);
        var g := AllocRun(m, n).value;
        var m1, left, es := g.m, n - g.value.len, [Extent(g.value.start, g.value.len, 0)];
        assert [] + es == es;
        if left == 0 {
          AllocExtentsDone(m1, g.value.len, es);
        } else {
          TailTaken(m, left);
          RunShape(m1, left);
          AllocExtentsStep(m1, left, g.value.len, es);
          if AllocRun(m1, left).Some? {
            var h := AllocRun(m1, left).value;
            AllocExtentsDone(h.m, n, es + [Extent(h.value.start, h.value.len, g.value.len)]);
          }
        }
      }
    }
  }

  /** The loop would give up because all ten extents are taken. */
  ghost predicate TooFragmented(m: Meta, n: nat, taken: nat)
    requires Addressable(m)
    decreases n
  {
    n > 0 && (taken >= NUM_EXTENTS
              || (AllocRun(m, n).Some? && TooFragmented(AllocRun(m, n).value.m, n - AllocRun(m, n).value.value.len, taken + 1)))
  }

  /** The exit "File too fragmented" is never taken. */
  lemma NeverTooFragmented(m: Meta, n: nat)
    requires Addressable(m) && m.sb.dataStart <= m.sb.totalBlocks
    ensures !TooFragmented(m, n, 0)
  {
    hide AllocRun, RunBelow, TailFree, Claim;
    if n > 0 {
      RunShape(m, n);
      if AllocRun(m, n).Some? {
        ClaimedRun(m, n);
        var g := AllocRun(m, n).value;
        var m1, left := g.m, n - g.value.len;
        if left > 0 {
          TailTaken(m, left);
          RunShape(m1, left);
        }
        assert !TooFragmented(m1, left, 1);
      }
    }
  }

  /** A copy that passed its checks and got an inode lacks room for its data exactly when the
      bitmap has no such space. */
  lemma CopyLacksSpaceIff(m: Meta, d: Disk, data: seq<byte>, dest: Path)
    requires MetaOk(m, |d|) && Addressable(m)
    ensures var r, p := Copy(m, d, data, dest), ParentInode(m, d, dest);
      r.Failed? && r.why == NoSpaceForData <==>
        && Base(dest) != [] && p != 0 && DirLookup(d, Ino(m, d, p), Base(dest)) == 0
        && AllocInode(m).Some? && !HasSpace(m, BlocksNeeded(|data|))
  {
    hide ReadInode, BlocksNeeded, AllocExtents, StoreFile, PlaceIn, AllocBlock, ResolvePath, DirLookup, MetaOk, FirstClear, SetBit, HasSpace,
      GrowDir, BlockList, FreshBlock;
    DataRegion(m, |d|);
    if AllocInode(m).Some? {
      var m1 := AllocInode(m).value.m;
      DataSpaceIff(m1, BlocksNeeded(|data|));
      SameSpace(m, m1, BlocksNeeded(|data|));
    }
  }

  lemma SameSpace(m: Meta, m1: Meta, n: nat)
    requires Addressable(m) && Addressable(m1)
    requires m1.bbmp == m.bbmp && m1.sb.dataStart == m.sb.dataStart && m1.sb.totalBlocks == m.sb.totalBlocks
    ensures HasSpace(m1, n) <==> HasSpace(m, n)
  {
    hide FreeRun, TailFree;
  }

  // ---- bitmaps whose free blocks are a suffix of the volume ----

  ghost predicate FreeFrom(m: Meta, f: nat)
    requires Addressable(m)
  {
    && m.sb.dataStart <= f <= m.sb.totalBlocks
    && forall b :: m.sb.dataStart <= b < m.sb.totalBlocks ==> (Bit(m.bbmp, b) <==> b < f)
  }

  ghost predicate SuffixFree(m: Meta) {
    Addressable(m) && exists f :: FreeFrom(m, f)
  }

  lemma {:induction false} CountSuffix(bmp: seq<byte>, f: nat, n: nat)
    requires n <= 8 * |bmp| && forall b :: 0 <= b < n ==> (Bit(bmp, b) <==> b < f)
    ensures CountClear(bmp, n) == if n <= f then 0 else n - f
  {
    hide Bit;
    if n > 0 { CountSuffix(bmp, f, n - 1); }
  }

  lemma SuffixCount(m: Meta, f: nat, n: nat)
    requires MetaOk(m, n) && Addressable(m) && FreeFrom(m, f)
    ensures m.sb.freeBlocks == m.sb.totalBlocks - f
  {
    hide Bit, CountClear, SbFits, TailZero;
    CountSuffix(m.bbmp, f, m.sb.totalBlocks);
  }

  lemma SuffixClaim(m: Meta, f: nat, n: nat)
    requires Addressable(m) && FreeFrom(m, f) && f + n <= m.sb.totalBlocks
    ensures FreeFrom(Claim(m, f, n), f + n)
  {
    hide Bit, SetRun;
    var m1 := Claim(m, f, n);
    forall b | m.sb.dataStart <= b < m.sb.totalBlocks ensures Bit(m1.bbmp, b) <==> b < f + n { BitSetRun(m.bbmp, f, n, b); }
  }

  lemma SuffixRuns(m: Meta, f: nat, n: nat)
    requires Addressable(m) && FreeFrom(m, f) && n > 0
    ensures HasSpace(m, n) <==> f + n <= m.sb.totalBlocks
    ensures f + n <= m.sb.totalBlocks ==> HasRun(m, n)
  {
    hide Bit, TailFree;
    var lo, hi := m.sb.dataStart, m.sb.totalBlocks;
    assert FreeRun(m.bbmp, lo, hi, hi - (hi - f), hi - f);
    MaximalTail(m.bbmp, lo, hi, hi - f);
    if f + n <= hi { assert FreeRun(m.bbmp, lo, hi, f, n); }
    forall s: nat, k: nat | k > 0 && FreeRun(m.bbmp, lo, hi, s, k) ensures f <= s { assert !Bit(m.bbmp, s); }
    forall s: nat, k: nat | k > 0 ensures !FreeRun(m.bbmp, lo, f, s, k) {
      if lo <= s && s + k <= f { assert Bit(m.bbmp, s); }
    }
  }

  lemma SuffixTakesFirst(m: Meta, f: nat, n: nat)
    requires Addressable(m) && FreeFrom(m, f) && n > 0 && f + n <= m.sb.totalBlocks
    ensures AllocRun(m, n).Some? && AllocRun(m, n).value.value == Run(f, n)
  {
    hide Bit, Scan, Claim;
    var lo, hi := m.sb.dataStart, m.sb.totalBlocks;
    AllocIsFirstFit(m.bbmp, lo, hi, n);
    assert FreeRun(m.bbmp, lo, hi, f, n);
    assert !Bit(m.bbmp, Scan(m.bbmp, lo, hi, Run(0, 0), n).start);
  }

  lemma SuffixExtents(m: Meta, f: nat, n: nat)
    requires Addressable(m) && FreeFrom(m, f)
    ensures AllocExtents(m, n, 0, []).Some? <==> f + n <= m.sb.totalBlocks
    ensures AllocExtents(m, n, 0, []).Some? ==> FreeFrom(AllocExtents(m, n, 0, []).value.m, f + n)
  {
    hide AllocExtents, AllocRun, HasSpace, HasRun, FreeFrom, Claim;
    FreeFromBounds(m, f);
    if n == 0 {
      AllocExtentsDone(m, 0, []);
    } else {
      DataSpaceIff(m, n);
      SuffixRuns(m, f, n);
      if f + n <= m.sb.totalBlocks {
        SuffixTakesFirst(m, f, n);
        AllocExtentsStep(m, n, 0, []);
        ClaimedRun(m, n);
        AllocExtentsDone(Claim(m, f, n), n, [] + [Extent(f, n, 0)]);
        SuffixClaim(m, f, n);
      }
    }
  }

  lemma FreeFromBounds(m: Meta, f: nat)
    requires Addressable(m) && FreeFrom(m, f)
    ensures m.sb.dataStart <= f <= m.sb.totalBlocks
  {
  }

  lemma SuffixBlock(m: Meta, f: nat)
    requires Addressable(m) && FreeFrom(m, f) && AllocBlock(m).Some?
    ensures AllocBlock(m).value.value == f
    ensures Addressable(AllocBlock(m).value.m) && FreeFrom(AllocBlock(m).value.m, f + 1)
  {
    hide Bit, SetRun;
    var i := AllocBlock(m).value.value;
    assert !Bit(m.bbmp, i);
    assert !Bit(m.bbmp, f);
    SuffixClaim(m, f, 1);
  }

  lemma SuffixInode(m: Meta, f: nat)
    requires Addressable(m) && FreeFrom(m, f) && AllocInode(m).Some?
    ensures Addressable(AllocInode(m).value.m) && FreeFrom(AllocInode(m).value.m, f)
  {
    hide Bit, SetBit, FirstClear;
  }

  /** Whatever its parent, a successful copy leaves the free blocks a suffix again. */
  lemma CopyKeepsSuffix(m: Meta, d: Disk, data: seq<byte>, dest: Path)
    requires SuffixFree(m) && Copy(m, d, data, dest).Copied?
    ensures SuffixFree(Copy(m, d, data, dest).m)
  {
    hide ReadInode, BlocksNeeded, AllocInode, AllocExtents, StoreFile, PlaceIn, AllocBlock, ResolvePath, DirLookup, FreeFrom, GrowDir,
      BlockList, FreshBlock;
    var f :| FreeFrom(m, f);
    SuffixInode(m, f);
    var m1, n := AllocInode(m).value.m, BlocksNeeded(|data|);
    SuffixExtents(m1, f, n);
    var m2 := AllocExtents(m1, n, 0, []).value.m;
    assert SuffixFree(m2);
    if AllocBlock(m2).Some? {
      SuffixBlock(m2, f + n);
      assert SuffixFree(AllocBlock(m2).value.m);
    }
  }

  /** With a suffix free, a copy lacks room for its data exactly when it needs more blocks than
      the superblock counts as free. */
  lemma SuffixSpaceIff(m: Meta, d: Disk, data: seq<byte>, dest: Path)
    requires MetaOk(m, |d|) && SuffixFree(m)
    ensures var r, p := Copy(m, d, data, dest), ParentInode(m, d, dest);
      r.Failed? && r.why == NoSpaceForData <==>
        && Base(dest) != [] && p != 0 && DirLookup(d, Ino(m, d, p), Base(dest)) == 0
        && AllocInode(m).Some? && BlocksNeeded(|data|) > m.sb.freeBlocks
  {
    hide BlocksNeeded, AllocInode, Copy, ParentInode, Ino, DirLookup, MetaOk, HasSpace, Base;
    SuffixHasSpace(m, BlocksNeeded(|data|), |d|);
    CopyLacksSpaceIff(m, d, data, dest);
  }

  lemma SuffixHasSpace(m: Meta, n: nat, size: nat)
    requires MetaOk(m, size) && SuffixFree(m)
    ensures HasSpace(m, n) <==> n <= m.sb.freeBlocks
  {
    hide MetaOk, HasSpace, FreeFrom, HasRun;
    var f :| FreeFrom(m, f);
    FreeFromBounds(m, f);
    SuffixCount(m, f, size);
    if n > 0 { SuffixRuns(m, f, n); } else { NothingFits(m); }
  }

  lemma NothingFits(m: Meta)
    requires Addressable(m)
    ensures HasSpace(m, 0)
  {
  }

  // ---- runs ----

  lemma StepKeepsSuffix(d: Disk, op: Op)
    requires Image(d) && Sizes(op.data, op.dest) && SuffixFree(Load(d))
    ensures SuffixFree(Load(After(d, op)))
  {
    hide Load, Copy, Inv, SuffixFree, Agree, Get;
    ImageAddressable(d);
    var r := CopyRun(d, op.data, op.dest);
    if r.Ran? {
      RunState(d, op.data, op.dest);
      CopyKeepsSuffix(Load(d), d, op.data, op.dest);
    } else if r.Aborted? {
      AbortedRunInvisible(d, op.data, op.dest);
    }
  }

  /** The free blocks stay a suffix of the volume over any sequence of runs. */
  lemma {:induction false} RunsKeepSuffix(d: Disk, ops: seq<Op>)
    requires Image(d) && AllSizes(ops) && AllAimed(d, ops) && SuffixFree(Load(d))
    ensures SuffixFree(Load(AfterAll(d, ops)))
    decreases |ops|
  {
    hide Load, Image, Sizes, StepAimed, After, SuffixFree, UniqueImage, SealedImage, AnswersKept;
    if ops != [] {
      StepKeepsSuffix(d, ops[0]);
      StepKeeps(d, ops[0]);
      RunsKeepSuffix(After(d, ops[0]), ops[1..]);
    }
  }

  /** On a suffix-free image a run fails for lack of data space exactly when it gets that far and
      needs more blocks than the superblock counts as free. */
  lemma RunSpaceIff(d: Disk, data: seq<byte>, dest: Path)
    requires Image(d) && SuffixFree(Load(d))
    ensures var m, r := Load(d), CopyRun(d, data, dest);
      r.Aborted? && r.why == NoSpaceForData <==>
        && Base(dest) != [] && ParentOf(d, dest) != 0 && DirLookup(d, Ino(m, d, ParentOf(d, dest)), Base(dest)) == 0
        && AllocInode(m).Some? && BlocksNeeded(|data|) > m.sb.freeBlocks
  {
    hide Load, Copy, CopyRun, Inv, DirLookup, AllocInode, BlocksNeeded, Ino, ParentInode, SuffixFree, MetaOk, Base;
    ImageAddressable(d);
    ImageMeta(d);
    AbortIsFailure(d, data, dest);
    SuffixSpaceIff(Load(d), d, data, dest);
  }

  lemma AbortIsFailure(d: Disk, data: seq<byte>, dest: Path)
    requires Addressable(Load(d)) && Load(d).sb.magic == MAGIC
    ensures var r, c := CopyRun(d, data, dest), Copy(Load(d), d, data, dest);
      r.Aborted? == c.Failed? && (r.Aborted? ==> r.why == c.why)
  {
    hide Load, Copy, Flush;
  }

  lemma ImageMeta(d: Disk)
    requires Image(d)
    ensures MetaOk(Load(d), |d|)
  {
  }
}
