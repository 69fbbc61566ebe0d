/** The second half of a copy: the directory record. Whichever of the three placements
    `add_dirent` takes, the invariant is kept, one entry is inserted, and nothing but the
    directory itself changes. */
module DirStage {
  import opened Bytes
  import opened Bitmap
  import opened Volume
  import opened Metadata
  import opened Dirent
  import opened Extents
  import opened Alloc
  import opened CopySpec
  import opened Invariant
  import opened FileStage

  // ---- frame: whatever the parent is ----

  /** Inodes other than p read the same, p keeps its type, and the same inodes are in use. */
  ghost predicate OthersKept(m: Meta, d: Disk, m': Meta, d': Disk, p: nat) {
    && |d'| == |d|
    && m'.sb.inodeTableStart == m.sb.inodeTableStart
    && (forall i :: UsedInode(m', i) <==> UsedInode(m, i))
    && (forall i :: UsedInode(m, i) && i != p ==> Ino(m', d', i) == Ino(m, d, i))
    && (forall i :: UsedInode(m, i) && i != p ==> SameOn(d, d', BlocksOf(m, d, i)))
    && Ino(m', d', p).kind == Ino(m, d, p).kind
  }

  lemma InodeUntouched(m: Meta, d: Disk, b: nat, block: Block, i: nat)
    requires MetaOk(m, |d|) && i < MAX_INODES && m.sb.dataStart <= b
    ensures Ino(m, SetAt(d, b, block), i) == Ino(m, d, i)
  {
    hide DecodeInode;
    TableBelowData(m, |d|, i);
  }

  lemma PlaceKeepsOthers(m: Meta, d: Disk, p: nat, at: nat, block: Block)
    requires Inv(m, d) && UsedInode(m, p) && at in BlocksOf(m, d, p)
    ensures OthersKept(m, d, m, SetAt(d, at, block), p)
    ensures Ino(m, SetAt(d, at, block), p) == Ino(m, d, p)
    ensures m.sb.dataStart <= at < |d|
  {
    hide ReadInode, BlockList, Consecutive, Live, Bit, MetaOk, DirsOk;
    LayoutAddressable(m, |d|);
    DataRegion(m, |d|);
    assert InodeOk(m, Ino(m, d, p));
    var d' := SetAt(d, at, block);
    forall i | UsedInode(m, i) ensures Ino(m, d', i) == Ino(m, d, i) { InodeUntouched(m, d, at, block, i); }
    forall i | UsedInode(m, i) && i != p ensures SameOn(d, d', BlocksOf(m, d, i)) {
      assert Disjoint(BlocksOf(m, d, i), BlocksOf(m, d, p));
    }
  }

  lemma NewBlockKeepsOthers(m: Meta, d: Disk, m': Meta, p: nat, nb: nat, block: Block, ino: Inode)
    requires Inv(m, d) && UsedInode(m, p) && Claims(m, m', [nb])
    requires InodeFits(ino) && ino.kind == Ino(m, d, p).kind
    ensures var d' := WriteInode(SetAt(d, nb, block), m.sb.inodeTableStart, p, ino);
      && OthersKept(m, d, m', d', p) && Ino(m', d', p) == ino
      && At(d', nb) == block && SameOn(d, d', BlocksOf(m, d, p))
  {
    hide ReadInode, WriteInode, BlockList, Consecutive, Live, Bit, MetaOk, DirsOk, CountClear, InodeFits;
    LayoutAddressable(m, |d|);
    DataRegion(m, |d|);
    ClaimsMetaOk(m, m', [nb], |d|);
    assert [nb][0] == nb;
    var table := m.sb.inodeTableStart;
    var d1 := SetAt(d, nb, block);
    var d' := WriteInode(d1, table, p, ino);
    TableBelowData(m, |d|, p);
    ReadWritten(d1, table, p, ino);
    WriteInodeOther(d1, table, p, ino, nb);
    forall i | UsedInode(m, i) && i != p ensures Ino(m', d', i) == Ino(m, d, i) {
      InodeUntouched(m, d, nb, block, i);
      ReadOther(d1, table, p, ino, i);
    }
    forall i | UsedInode(m, i) ensures SameOn(d, d', BlocksOf(m, d, i)) {
      var own := BlocksOf(m, d, i);
      assert InodeOk(m, Ino(m, d, i));
      forall k | 0 <= k < |own| ensures At(d', own[k]) == At(d, own[k]) {
        assert Owned(m, own[k]);
        WriteInodeOther(d1, table, p, ino, own[k]);
      }
    }
  }

  // ---- the invariant ----

  lemma KeptInodesOk(m: Meta, d: Disk, m': Meta, d': Disk, p: nat)
    requires Inv(m, d) && MetaOk(m', |d|) && Extends(m, m') && OthersKept(m, d, m', d', p)
    requires UsedInode(m, p) && InodeOk(m', Ino(m', d', p))
    ensures InodesOk(m', d')
  {
    hide ReadInode, BlockList, Consecutive, Live, Bit, MetaOk, DirsOk, NoSharing, InodeOk;
    LayoutAddressable(m, |d|);
    LayoutAddressable(m', |d|);
    forall i | UsedInode(m', i) ensures InodeOk(m', Ino(m', d', i)) {
      if i != p {
        assert InodeOk(m, Ino(m, d, i));
        InodeOkExtends(m, m', Ino(m, d, i));
      }
    }
  }

  lemma KeptDirsOk(m: Meta, d: Disk, m': Meta, d': Disk, p: nat)
    requires Inv(m, d) && MetaOk(m', |d|) && Extends(m, m') && OthersKept(m, d, m', d', p)
    requires UsedInode(m, p) && DirOk(m', d', BlocksOf(m', d', p))
    ensures DirsOk(m', d')
  {
    hide ReadInode, BlockList, Bit, MetaOk, NoSharing, InodesOk, Tiled, Entries, At;
    forall i | UsedInode(m', i) && Ino(m', d', i).kind == TYPE_DIR ensures DirOk(m', d', BlocksOf(m', d', i)) {
      if i != p {
        assert DirOk(m, d, BlocksOf(m, d, i));
        EntriesFrame(d, d', BlocksOf(m, d, i));
      }
    }
  }

  lemma KeptUnique(m: Meta, d: Disk, m': Meta, d': Disk, p: nat)
    requires OthersKept(m, d, m', d', p) && NamesUnique(m, d)
    requires UsedInode(m, p) && Unique(Entries(d', BlocksOf(m', d', p)))
    ensures NamesUnique(m', d')
  {
    hide ReadInode, BlockList, Bit, Entries, At, Unique;
    forall i | UsedInode(m', i) && Ino(m', d', i).kind == TYPE_DIR ensures Unique(Entries(d', BlocksOf(m', d', i))) {
      if i != p { EntriesFrame(d, d', BlocksOf(m, d, i)); }
    }
  }

  lemma ExtendsSelf(m: Meta)
    requires Addressable(m)
    ensures Extends(m, m)
  {
  }

  /** The entries of directory p gained exactly `e`, and everything else is kept. */
  ghost predicate DirentAdded(m: Meta, d: Disk, m': Meta, d': Disk, p: nat, e: Entry, k: nat) {
    && Inv(m', d') && OthersKept(m, d, m', d', p)
    && InsertedAt(Entries(d, BlocksOf(m, d, p)), Entries(d', BlocksOf(m', d', p)), k, e)
  }

  ghost predicate SameKinds(m: Meta, d: Disk, d': Disk) {
    forall i :: UsedInode(m, i) ==> Ino(m, d', i).kind == Ino(m, d, i).kind
  }

  lemma InsertedDirOk(m: Meta, d: Disk, d': Disk, bs: seq<nat>, bs': seq<nat>, k: nat, e: Entry)
    requires DirOk(m, d, bs) && EntryOk(m, d, e) && AllTiled(d', bs') && SameKinds(m, d, d')
    requires InsertedAt(Entries(d, bs), Entries(d', bs'), k, e)
    ensures DirOk(m, d', bs')
  {
    hide Entries, Bit, AllTiled, ReadInode;
    var a, b := Entries(d, bs), Entries(d', bs');
    forall j | 0 <= j < |b| ensures EntryOk(m, d', b[j]) {
      assert b[j] == if j < k then a[j] else if j == k then e else a[j - 1];
    }
  }

  /** Placement in an existing block: a reused slot or split slack. */
  lemma PlacedInBlock(m: Meta, d: Disk, p: nat, child: nat, name: seq<byte>, kind: byte) returns (k: nat)
    requires Inv(m, d) && UsedInode(m, p) && Ino(m, d, p).kind == TYPE_DIR
    requires UsedInode(m, child) && child != 0 && HEADER + |name| <= BLOCK && kind == Ino(m, d, child).kind
    requires PlaceIn(d, BlocksOf(m, d, p), child, name, kind).Some?
    ensures var e := PlaceIn(d, BlocksOf(m, d, p), child, name, kind).value;
      DirentAdded(m, d, m, SetAt(d, e.at, e.block), p, Stored(child, name, kind), k) && k == SlotIn(d, BlocksOf(m, d, p), name)
  {
    hide ReadInode, BlockList, Consecutive, Live, Bit, MetaOk, PlaceIn, Entries, Tiled, DirOk, Stored, SameOn;
    var bs := BlocksOf(m, d, p);
    var e := PlaceIn(d, bs, child, name, kind).value;
    var d' := SetAt(d, e.at, e.block);
    LayoutAddressable(m, |d|);
    DataRegion(m, |d|);
    assert InodeOk(m, Ino(m, d, p)) && DirOk(m, d, bs);
    PlacedAt(d, bs, child, name, kind);
    PlaceKeepsOthers(m, d, p, e.at, e.block);
    DirOkTiled(m, d, bs);
    k := PlaceInInserts(d, bs, child, name, kind);
    StoredInode(child, name, kind);
    InsertedDirOk(m, d, d', bs, bs, k, Stored(child, name, kind));
    ExtendsSelf(m);
    KeptInodesOk(m, d, m, d', p);
    KeptDirsOk(m, d, m, d', p);
    RootUsed(m, |d|);
    SameBlocksNoSharing(m, d, d');
  }

  lemma PlacedAt(d: Disk, bs: seq<nat>, child: nat, name: seq<byte>, kind: byte)
    requires PlaceIn(d, bs, child, name, kind).Some?
    ensures PlaceIn(d, bs, child, name, kind).value.at in bs
  {
  }

  lemma StoredInode(child: nat, name: seq<byte>, kind: byte)
    ensures Stored(child, name, kind).ino == child && Stored(child, name, kind).kind == kind
  {
  }

  lemma DirOkTiled(m: Meta, d: Disk, bs: seq<nat>)
    requires DirOk(m, d, bs)
    ensures AllTiled(d, bs)
  {
  }

  lemma SameBlocksNoSharing(m: Meta, d: Disk, d': Disk)
    requires NoSharing(m, d) && forall i :: UsedInode(m, i) ==> Ino(m, d', i) == Ino(m, d, i)
    ensures NoSharing(m, d')
  {
    hide ReadInode, BlockList, Bit, Disjoint;
  }

  // ---- a new directory block ----

  ghost function Below(n: nat): (s: set<nat>)
    ensures |s| == n && forall b :: b in s <==> 0 <= b < n
  {
    if n == 0 then {} else Below(n - 1) + {n - 1}
  }

  ghost function Elements(bs: seq<nat>): (s: set<nat>)
    requires NoDup(bs)
    ensures |s| == |bs| && forall b :: b in s <==> b in bs
  {
    if bs == [] then {} else
      assert bs == bs[..|bs| - 1] + [bs[|bs| - 1]];
      Elements(bs[..|bs| - 1]) + {bs[|bs| - 1]}
  }

  lemma DistinctBelow(bs: seq<nat>, n: nat)
    requires NoDup(bs) && forall k :: 0 <= k < |bs| ==> bs[k] < n
    ensures |bs| <= n
  {
    SubsetCount(Elements(bs), Below(n));
  }

  lemma {:induction false} SubsetCount(s: set<nat>, t: set<nat>)
    requires s <= t
    ensures |s| <= |t|
  {
    if s != {} {
      var x :| x in s;
      SubsetCount(s - {x}, t - {x});
    }
  }

  lemma GrownBlocks(dir: Inode, nb: nat)
    requires dir.extentCount < NUM_EXTENTS
    ensures BlockList(GrowDir(dir, nb)) == BlockList(dir) + [nb]
    ensures Live(GrowDir(dir, nb)) == Live(dir) + [Extent(nb, 1, dir.size / BLOCK % 0x1_0000_0000)]
  {
    hide Flat;
    var e := Extent(nb, 1, dir.size / BLOCK % 0x1_0000_0000);
    assert Live(GrowDir(dir, nb)) == Live(dir) + [e];
    FlatAppend(Live(dir), e);
    assert ExtentBlocks(e) == [nb];
  }

  lemma BlockListIsFlat(dir: Inode)
    ensures BlockList(dir) == Flat(Live(dir))
  {
  }

  lemma GrownInodeOk(m: Meta, m': Meta, dir: Inode, nb: nat, n: nat)
    requires MetaOk(m, n) && Claims(m, m', [nb]) && MetaOk(m', n) && Extends(m, m')
    requires InodeOk(m, dir) && dir.kind == TYPE_DIR && dir.extentCount < NUM_EXTENTS && InodeFits(dir)
    ensures InodeOk(m', GrowDir(dir, nb)) && InodeFits(GrowDir(dir, nb))
    ensures !Owned(m, nb) && Owned(m', nb)
  {
    hide Live, Flat, Bit, MetaOk, InodeFits, Consecutive, CountClear, BlockList;
    DataRegion(m, n);
    BlockListIsFlat(dir);
    var bs := BlockList(dir);
    var e := Extent(nb, 1, dir.size / BLOCK % 0x1_0000_0000);
    assert [nb][0] == nb;
    ClaimsMetaOk(m, m', [nb], n);
    assert forall k :: 0 <= k < |bs| ==> Owned(m, bs[k]) && bs[k] < m.sb.totalBlocks;
    DistinctBelow(bs, m.sb.totalBlocks);
    GrownBlocks(dir, nb);
    ConsecutiveAppend(Live(dir), e);
    InodeOkExtends(m, m', dir);
    assert NoDup(bs + [nb]);
    FitsAppend(dir, dir.extentCount, e, dir.extentCount + 1, dir.size + BLOCK, dir.blocksUsed + 1);
  }

  lemma GrownNoSharing(m: Meta, d: Disk, m': Meta, d': Disk, p: nat, nb: nat)
    requires Inv(m, d) && UsedInode(m, p) && OthersKept(m, d, m', d', p) && !Owned(m, nb)
    requires BlocksOf(m', d', p) == BlocksOf(m, d, p) + [nb]
    ensures NoSharing(m', d')
  {
    hide ReadInode, BlockList, Bit, MetaOk, DirsOk, Consecutive, Live;
    LayoutAddressable(m, |d|);
    forall i, j | UsedInode(m', i) && UsedInode(m', j) && i != j
      ensures Disjoint(BlocksOf(m', d', i), BlocksOf(m', d', j))
    {
      assert Disjoint(BlocksOf(m, d, i), BlocksOf(m, d, j));
      assert InodeOk(m, Ino(m, d, i)) && InodeOk(m, Ino(m, d, j));
      var a, b := BlocksOf(m, d, i), BlocksOf(m, d, j);
      assert forall k :: 0 <= k < |a| ==> Owned(m, a[k]);
      assert forall k :: 0 <= k < |b| ==> Owned(m, b[k]);
    }
  }

  lemma AppendedEntries(d: Disk, d': Disk, bs: seq<nat>, nb: nat, e: Entry)
    requires SameOn(d, d', bs) && Walk(At(d', nb), 0) == [e]
    ensures InsertedAt(Entries(d, bs), Entries(d', bs + [nb]), |Entries(d, bs)|, e)
  {
    hide Walk, At;
    EntriesFrame(d, d', bs);
    EntriesConcat(d', bs, [nb]);
    assert [nb][1..] == [];
    assert Entries(d', [nb]) == [e] + Entries(d', []);
  }

  lemma AppendedTiled(d: Disk, d': Disk, bs: seq<nat>, nb: nat)
    requires SameOn(d, d', bs) && AllTiled(d, bs) && Tiled(At(d', nb), 0)
    ensures AllTiled(d', bs + [nb])
  {
    hide Tiled, At;
  }

  lemma PlacedInNewBlock(m: Meta, d: Disk, p: nat, child: nat, name: seq<byte>, kind: byte) returns (k: nat)
    requires Inv(m, d) && UsedInode(m, p) && Ino(m, d, p).kind == TYPE_DIR
    requires UsedInode(m, child) && child != 0 && HEADER + |name| <= BLOCK && kind == Ino(m, d, child).kind
    requires Addressable(m) && Ino(m, d, p).extentCount < NUM_EXTENTS && AllocBlock(m).Some?
    ensures var g := AllocBlock(m).value;
      var d1 := SetAt(d, g.value, FreshBlock(child, name, kind));
      DirentAdded(m, d, g.m, WriteInode(d1, m.sb.inodeTableStart, p, GrowDir(Ino(m, d, p), g.value)),
                  p, Stored(child, name, kind), k)
    ensures k == |Entries(d, BlocksOf(m, d, p))|
  {
    hide ReadInode, WriteInode, BlockList, Consecutive, Live, Bit, MetaOk, Entries, Tiled, Walk, DirOk, Stored,
      SameOn, AllocBlock, Claims, FreshBlock, InodeFits, GrowDir, SetAt, At;
    var g, dir, bs := AllocBlock(m).value, Ino(m, d, p), BlocksOf(m, d, p);
    var nb, m' := g.value, g.m;
    var block := FreshBlock(child, name, kind);
    var d' := WriteInode(SetAt(d, nb, block), m.sb.inodeTableStart, p, GrowDir(dir, nb));
    DataRegion(m, |d|);
    AllocBlockClaims(m);
    ClaimsMetaOk(m, m', [nb], |d|);
    ClaimedKeepsLayout(m, m', [nb]);
    LayoutAddressable(m', |d|);
    assert Extends(m, m');
    assert InodeOk(m, dir) && DirOk(m, d, bs);
    ReadFits(d, m.sb.inodeTableStart, p);
    GrownInodeOk(m, m', dir, nb, |d|);
    GrownBlocks(dir, nb);
    GrowKind(dir, nb);
    NewBlockKeepsOthers(m, d, m', p, nb, block, GrowDir(dir, nb));
    FreshBlockTiled(child, name, kind);
    k := |Entries(d, bs)|;
    AppendedEntries(d, d', bs, nb, Stored(child, name, kind));
    DirOkTiled(m, d, bs);
    AppendedTiled(d, d', bs, nb);
    DirOkExtends(m, m', d, bs);
    StoredInode(child, name, kind);
    InsertedDirOk(m', d, d', bs, bs + [nb], k, Stored(child, name, kind));
    KeptInodesOk(m, d, m', d', p);
    KeptDirsOk(m, d, m', d', p);
    GrownNoSharing(m, d, m', d', p, nb);
    RootUsed(m, |d|);
  }

  lemma GrowKind(dir: Inode, nb: nat)
    requires dir.extentCount < NUM_EXTENTS
    ensures GrowDir(dir, nb).kind == dir.kind
  {
  }

  /** `add_dirent` on a directory of a consistent image: when it succeeds, by whichever
      placement, it inserts exactly one entry and keeps everything else. */
  lemma AddDirentInserts(m: Meta, d: Disk, p: nat, child: nat, name: seq<byte>, kind: byte) returns (k: nat)
    requires Inv(m, d) && UsedInode(m, p) && Ino(m, d, p).kind == TYPE_DIR
    requires UsedInode(m, child) && child != 0 && HEADER + |name| <= BLOCK && kind == Ino(m, d, child).kind
    requires Addressable(m) && AddDirent(m, d, p, child, name, kind).EntryAdded?
    ensures var r := AddDirent(m, d, p, child, name, kind);
      DirentAdded(m, d, r.m, r.d, p, Stored(child, name, kind), k) && k == SlotIn(d, BlocksOf(m, d, p), name)
  {
    hide Inv, UsedInode, ReadInode, BlockList, PlaceIn, AllocBlock, FreshBlock, GrowDir, SetAt, WriteInode, DirentAdded, Stored,
      HasSlotIn, Entries;
    PlaceInIff(d, BlocksOf(m, d, p), child, name, kind);
    if PlaceIn(d, BlocksOf(m, d, p), child, name, kind).Some? {
      k := PlacedInBlock(m, d, p, child, name, kind);
    } else {
      k := PlacedInNewBlock(m, d, p, child, name, kind);
    }
  }
}
