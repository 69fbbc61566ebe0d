/** A volume whose free space lies in two pieces, with a file on the blocks between and behind
    them. The two tools alone never leave such a volume; a system that deletes files does. */
module Fragmented {
  import opened Bytes
  import opened Bitmap
  import opened Volume
  import opened Metadata
  import opened Dirent
  import opened Extents
  import opened Alloc
  import opened Paths
  import opened CopySpec
  import opened Invariant
  import opened FileStage
  import opened DirStage
  import opened CopyTheorems
  import opened CopyResults
  import opened Runs
  import opened Space
  import opened Mkfs
  import opened Findings

  // ---- no space between used blocks ----

  lemma NoSpaceBetween(m: Meta, a: nat, n: nat)
    requires Addressable(m) && m.sb.dataStart < a < m.sb.totalBlocks - 1
    requires Bit(m.bbmp, m.sb.dataStart) && Bit(m.bbmp, a) && Bit(m.bbmp, m.sb.totalBlocks - 1)
    requires a - m.sb.dataStart - 1 < n && m.sb.totalBlocks - 1 - a - 1 < n && n > 0
    ensures !HasSpace(m, n)
  {
    hide Bit;
    var lo, hi := m.sb.dataStart, m.sb.totalBlocks;
    forall s: nat ensures !FreeRun(m.bbmp, lo, hi, s, n) {
      if lo <= s && s + n <= hi {
        var b := if s == lo then lo else if s <= a then a else hi - 1;
        assert s <= b < s + n && Bit(m.bbmp, b);
      }
    }
  }

  // ---- the state ----

  /** The two blocks the file holds: the third data block and the last block of the volume. */
  function Mid(s: Shape): nat {
    DataStart(s) + 2
  }

  ghost predicate Roomy(d0: Disk, s: Shape) {
    FitsTool(d0, s) && DataStart(s) + 5 <= s.total
  }

  function FileExtents(s: Shape): (es: seq<Extent>)
    requires s.total > 0
    ensures |es| == 2
  {
    [Extent(Mid(s), 1, 0), Extent(s.total - 1, 1, 1)]
  }

  lemma FileExtentsFlat(s: Shape)
    requires s.total > 0
    ensures Flat(FileExtents(s)) == [Mid(s), s.total - 1] && Consecutive(FileExtents(s))
  {
    var es := FileExtents(s);
    assert es == [] + [es[0]] + [es[1]] && es[..0] == [] && es[..1] == [] + [es[0]];
    FlatAppend([], es[0]);
    FlatAppend([] + [es[0]], es[1]);
    assert ExtentBlocks(es[0]) == [Mid(s)] && ExtentBlocks(es[1]) == [s.total - 1];
  }

  /** m is the fresh metadata with inode n and these two blocks taken. */
  ghost predicate Taken(s: Shape, n: nat, m: Meta)
    requires Sized(s) && Addressable(NewMeta(s)) && AllocInode(NewMeta(s)).Some?
  {
    && n == AllocInode(NewMeta(s)).value.value
    && Addressable(AllocInode(NewMeta(s)).value.m)
    && Claims(AllocInode(NewMeta(s)).value.m, m, [Mid(s), s.total - 1])
  }

  lemma FreshBits(s: Shape, b: nat)
    requires Sized(s) && s.maps <= BMP_MAXBLK && b < s.total
    ensures Bit(NewMeta(s).bbmp, b) <==> b <= DataStart(s)
  {
    hide Bit, NewBlockMap, NewMeta;
    NewMetaMap(s);
    NewBlockMapBits(DataStart(s), b);
  }

  lemma TakeTwo(m: Meta, a: nat, z: nat) returns (r: Meta)
    requires Addressable(m) && m.sb.dataStart <= a < z < m.sb.totalBlocks && !Bit(m.bbmp, a) && !Bit(m.bbmp, z)
    ensures Claims(m, r, [a, z])
  {
    hide Bit, CountClear, SetRun;
    var m1 := Claim(m, a, 1);
    ClaimClaims(m, a, 1);
    assert ExtentBlocks(Extent(a, 1, 0)) == [a] && ExtentBlocks(Extent(z, 1, 0)) == [z];
    assert !Bit(m1.bbmp, z) by { BitSetRun(m.bbmp, a, 1, z); }
    r := Claim(m1, z, 1);
    ClaimClaims(m1, z, 1);
    ClaimsTrans(m, m1, r, [a], [z]);
    assert [a] + [z] == [a, z];
  }

  lemma TakenState(d0: Disk, s: Shape) returns (n: nat, m: Meta)
    requires Roomy(d0, s)
    ensures Addressable(NewMeta(s)) && AllocInode(NewMeta(s)).Some? && Taken(s, n, m)
  {
    hide Format, NewMeta, Inv, UsedInode, Load, AllocInode, Bit, Claims, BlockList, ReadInode, RootBlock;
    var m0 := NewMeta(s);
    FreshState(d0, s);
    InodeLeft(m0, 2);
    TakenAddressable(m0);
    TakenInodeBlocks(m0);
    NewMetaRegion(s);
    FreshBits(s, Mid(s));
    FreshBits(s, s.total - 1);
    n := AllocInode(m0).value.value;
    m := TakeTwo(AllocInode(m0).value.m, Mid(s), s.total - 1);
  }

  /** What the metadata of such a state says. */
  ghost predicate TwoPieces(d0: Disk, s: Shape, n: nat, m: Meta)
    requires Sized(s)
  {
    && MetaOk(m, |d0|) && Addressable(m) && 2 <= n < MAX_INODES && !UsedInode(NewMeta(s), n)
    && m.sb.dataStart == DataStart(s) && m.sb.totalBlocks == s.total && m.sb.inodeTableStart == NewMeta(s).sb.inodeTableStart
    && m.sb.freeBlocks == s.total - DataStart(s) - 3 && m.sb.totalInodes == MAX_INODES
    && (forall i :: UsedInode(m, i) <==> i == n || UsedInode(NewMeta(s), i))
    && (forall b :: 0 <= b < s.total ==> (Bit(m.bbmp, b) <==> b <= DataStart(s) || b == Mid(s) || b == s.total - 1))
  }

  lemma TakenPieces(d0: Disk, s: Shape, n: nat, m: Meta)
    requires Roomy(d0, s) && Addressable(NewMeta(s)) && AllocInode(NewMeta(s)).Some? && Taken(s, n, m)
    ensures TwoPieces(d0, s, n, m)
  {
    hide NewMeta, UsedInode, AllocInode, Bit, CountClear, SbFits, TailZero, SetRun;
    var m0 := NewMeta(s);
    var m1 := AllocInode(m0).value.m;
    NewMetaOk(d0, s);
    AllocInodeTakes(m0, |d0|);
    AllocInodeCounter(m0, |d0|);
    NewMetaRegion(s);
    NewFree(s);
    ClaimsMetaOk(m1, m, [Mid(s), s.total - 1], |d0|);
    ClaimsCounter(m1, m, [Mid(s), s.total - 1], |d0|);
    LayoutAddressable(m, |d0|);
    forall b | 0 <= b < s.total ensures Bit(m.bbmp, b) <==> b <= DataStart(s) || b == Mid(s) || b == s.total - 1 {
      FreshBits(s, b);
    }
  }

  lemma NewFree(s: Shape)
    requires Sized(s)
    ensures NewMeta(s).sb.freeBlocks == s.total - DataStart(s) - 1
  {
  }

  // ---- the file ----

  /** The disk with the file's inode in its slot. */
  function WithInode(d0: Disk, s: Shape, n: nat): Disk
    requires FitsTool(d0, s)
  {
    WriteInode(Format(d0, s), NewMeta(s).sb.inodeTableStart, n, FileInode(2 * BLOCK, FileExtents(s)))
  }

  lemma FileBlocksOk(d0: Disk, s: Shape, n: nat, m: Meta)
    requires Roomy(d0, s) && TwoPieces(d0, s, n, m)
    ensures var ino := FileInode(2 * BLOCK, FileExtents(s));
      && InodeFits(ino) && InodeOk(m, ino) && ino.kind == TYPE_FILE && BlockList(ino) == [Mid(s), s.total - 1]
  {
    hide NewMeta, UsedInode, Bit, MetaOk, InodeFits, InodeOk, FileInode, FileExtents, Flat, Consecutive;
    FileExtentsFlat(s);
    TwoBlocksNeeded();
    FileInodeFits(2 * BLOCK, FileExtents(s), s.total);
    assert BlocksOk(m, [Mid(s), s.total - 1]);
    FileInodeOk(m, 2 * BLOCK, FileExtents(s));
  }

  lemma TwoBlocksNeeded()
    ensures BlocksNeeded(2 * BLOCK) == 2
  {
  }

  lemma WithInodeInv(d0: Disk, s: Shape, n: nat, m: Meta)
    requires Roomy(d0, s) && TwoPieces(d0, s, n, m)
    ensures var d1 := WithInode(d0, s, n);
      && Inv(m, d1) && Agree(NewMeta(s), Format(d0, s), d1) && |d1| == |d0|
      && Ino(m, d1, n) == FileInode(2 * BLOCK, FileExtents(s)) && Ino(m, d1, n).kind == TYPE_FILE
  {
    hide Format, NewMeta, UsedInode, Bit, MetaOk, InodeFits, InodeOk, FileInode, FileExtents, BlockList, ReadInode, WriteInode, Load, RootBlock,
      InodesOk, NoSharing, DirsOk;
    var m0, d, ino := NewMeta(s), Format(d0, s), FileInode(2 * BLOCK, FileExtents(s));
    var table := m0.sb.inodeTableStart;
    FreshState(d0, s);
    FileBlocksOk(d0, s, n, m);
    FreeWritesAgree(m0, d, d, n, ino, []);
    var d1 := WriteInode(d, table, n, ino);
    InvFrame(m0, d, d1);
    TableBelowData(m0, |d|, n);
    ReadWritten(d, table, n, ino);
    NewMetaRegion(s);
    forall b | 0 <= b < s.total ensures Bit(m0.bbmp, b) <==> b <= DataStart(s) { FreshBits(s, b); }
    assert Extends(m0, m);
    forall k | 0 <= k < |BlocksOf(m, d1, n)| ensures !Owned(m0, BlocksOf(m, d1, n)[k]) {}
    AddInode(m0, m, d1, n);
  }

  // ---- its name ----

  const NAME_F: seq<byte> := [102]

  lemma Named(d0: Disk, s: Shape, n: nat, m: Meta) returns (d2: Disk)
    requires Roomy(d0, s) && TwoPieces(d0, s, n, m)
    ensures Inv(m, d2) && |d2| == |d0|
    ensures Lookup(m, d2, ROOT, NAME_F) == n && Lookup(m, d2, ROOT, [97]) == 0
  {
    hide Format, NewMeta, UsedInode, ReadInode, BlockList, Load, RootBlock, Inv, MetaOk, WithInode, Agree, Place, PlaceIn, SetAt, Lookup,
      Find, Entries, Bit, FileInode, FileExtents, SlotIn, HasSlotIn, StoredName, NameEq, FreshBlock;
    var m0, d, d1 := NewMeta(s), Format(d0, s), WithInode(d0, s, n);
    FreshState(d0, s);
    WithInodeInv(d0, s, n, m);
    RootStays(m0, m, d, d1, DataStart(s));
    FootprintOne(102);
    RootBlockPlaces(n, NAME_F, TYPE_FILE);
    PlaceInOne(d1, DataStart(s), n, NAME_F, TYPE_FILE);
    var r := AddDirent(m, d1, ROOT, n, NAME_F, TYPE_FILE);
    d2 := r.d;
    FreshLookup(d0, s, [97]) by { NotDot(97); }
    FreshLookup(d0, s, NAME_F) by { NotDot(102); }
    RootLookups(m0, m, d, d1);
    var k := AddDirentInserts(m, d1, ROOT, n, NAME_F, TYPE_FILE);
    NotF();
    NamedLookup(m, d1, d2, k, n, NAME_F);
    NamedLookup(m, d1, d2, k, n, [97]);
  }

  lemma NotF()
    ensures StoredName(NAME_F) == NAME_F && NameEq(NAME_F, NAME_F) && !NameEq([97], NAME_F)
  {
    assert Fold([97])[0] != Fold(NAME_F)[0];
  }

  lemma RootStays(m0: Meta, m: Meta, d: Disk, d1: Disk, b: nat)
    requires Agree(m0, d, d1) && UsedInode(m0, ROOT) && BlocksOf(m0, d, ROOT) == [b]
    requires m.sb.inodeTableStart == m0.sb.inodeTableStart
    ensures BlocksOf(m, d1, ROOT) == [b] && At(d1, b) == At(d, b) && Ino(m, d1, ROOT) == Ino(m0, d, ROOT)
  {
    hide UsedInode, ReadInode, BlockList, At;
    assert SameOn(d, d1, BlocksOf(m0, d, ROOT));
    assert [b][0] == b;
  }

  lemma RootLookups(m0: Meta, m: Meta, d: Disk, d1: Disk)
    requires Agree(m0, d, d1) && UsedInode(m0, ROOT) && m.sb.inodeTableStart == m0.sb.inodeTableStart
    ensures forall x :: Lookup(m, d1, ROOT, x) == Lookup(m0, d, ROOT, x)
  {
    hide UsedInode, Lookup, Agree;
    forall x ensures Lookup(m, d1, ROOT, x) == Lookup(m0, d, ROOT, x) {
      AgreeLookup(m0, d, d1, ROOT, x);
      LookupTable(m0, m, d1, ROOT, x);
    }
  }

  lemma NamedLookup(m: Meta, d1: Disk, d2: Disk, k: nat, n: nat, x: seq<byte>)
    requires DirentAdded(m, d1, m, d2, ROOT, Stored(n, NAME_F, TYPE_FILE), k) && n != 0 && Ino(m, d1, ROOT).kind == TYPE_DIR
    requires StoredName(NAME_F) == NAME_F && Lookup(m, d1, ROOT, x) == 0
    ensures Lookup(m, d2, ROOT, x) == if NameEq(x, NAME_F) then n else 0
  {
    hide Inv, UsedInode, ReadInode, BlockList, Lookup, Find, Entries, StoredName, NameEq;
    var es := Entries(d1, BlocksOf(m, d1, ROOT));
    LookupUnfold(m, d1, ROOT, x);
    LookupUnfold(m, d2, ROOT, x);
    EntriesNonZero(d1, BlocksOf(m, d1, ROOT));
    FindInserted(es, k, Stored(n, NAME_F, TYPE_FILE), x);
    FindPrefixZero(es, k, x);
  }

  // ---- the run ----

  function Blank(n: nat): seq<byte> {
    seq(n * BLOCK, _ => 0)
  }

  lemma BlankNeeds(n: nat)
    requires n < 0x1_0000_0000
    ensures BlocksNeeded(|Blank(n)|) == n
  {
    assert (n * BLOCK + BLOCK - 1) / BLOCK == n;
  }

  lemma PiecesLackSpace(d0: Disk, s: Shape, n: nat, m: Meta)
    requires Roomy(d0, s) && TwoPieces(d0, s, n, m)
    ensures !HasSpace(m, m.sb.freeBlocks) && AllocInode(m).Some?
  {
    hide NewMeta, UsedInode, Bit, MetaOk, HasSpace, AllocInode;
    NoSpaceBetween(m, Mid(s), m.sb.freeBlocks);
    NewMetaOk(d0, s);
    InodeLeft(m, if n == 3 then 4 else 3);
  }

  /** The state flushed to disk, and what a run that needs just the free blocks does to it. */
  lemma PiecesRun(d0: Disk, s: Shape, n: nat, m: Meta, d2: Disk)
    requires Roomy(d0, s) && TwoPieces(d0, s, n, m) && Inv(m, d2) && |d2| == |d0|
    requires Lookup(m, d2, ROOT, [97]) == 0
    ensures var img := Flush(m, d2);
      && Image(img) && Load(img) == m && Agree(m, d2, img) && BlocksNeeded(|Blank(m.sb.freeBlocks)|) == m.sb.freeBlocks
      && CopyRun(img, Blank(m.sb.freeBlocks), DEST_A) == Aborted(img, NoSpaceForData)
  {
    hide NewMeta, UsedInode, Bit, MetaOk, HasSpace, AllocInode, Inv, Lookup, Load, Flush, Agree, Ino, DirLookup, LastSlash, PathInode, Blank,
      BlocksNeeded;
    var img, free := Flush(m, d2), m.sb.freeBlocks;
    FlushedImage(m, d2);
    InvAddressable(m, d2);
    BlankNeeds(free);
    PiecesLackSpace(d0, s, n, m);
    assert DEST_A == [SLASH] + [97];
    RootDest(m, img, [97]);
    RootInUse(m, d2);
    AgreeLookup(m, d2, img, ROOT, [97]);
    RootIsDir(m, img);
    LookupIsDirLookup(m, img, ROOT, [97]);
    CopyLacksSpaceIff(m, img, Blank(free), DEST_A);
    LacksSpaceLeavesDisk(m, img, Blank(free), DEST_A);
    ImageAddressable(img);
  }

  lemma RootIsDir(m: Meta, d: Disk)
    requires Inv(m, d)
    ensures Ino(m, d, ROOT).kind == TYPE_DIR && MetaOk(m, |d|)
  {
  }

  lemma LacksSpaceLeavesDisk(m: Meta, d: Disk, data: seq<byte>, dest: Path)
    requires Addressable(m) && Copy(m, d, data, dest).Failed? && Copy(m, d, data, dest).why == NoSpaceForData
    ensures Copy(m, d, data, dest).d == d
  {
    hide ResolvePath, DirLookup, AllocInode, AllocExtents, StoreFile, PlaceIn, AllocBlock, ReadInode, GrowDir, BlockList, FreshBlock;
  }

  /** On every volume with at least five data blocks there is a consistent image, holding a file
      /f, on which a copy that needs exactly the blocks counted as free fails for lack of space. */
  lemma FragmentedCopyFails(d0: Disk, s: Shape) returns (img: Disk)
    requires Roomy(d0, s)
    ensures Image(img) && Addressable(Load(img)) && |img| == |d0| && PathInode(Load(img), img, DEST_F) != 0
    ensures var free := Load(img).sb.freeBlocks;
      && BlocksNeeded(|Blank(free)|) == free && free >= 2
      && CopyRun(img, Blank(free), DEST_A) == Aborted(img, NoSpaceForData)
  {
    hide NewMeta, UsedInode, Bit, MetaOk, AllocInode, Inv, Lookup, Load, Flush, Agree, Taken, LastSlash, ResolvePath, Blank, BlocksNeeded, CopyRun,
      Parent, FullParent;
    var n, m := TakenState(d0, s);
    TakenPieces(d0, s, n, m);
    var d2 := Named(d0, s, n, m);
    PiecesRun(d0, s, n, m, d2);
    img := Flush(m, d2);
    ImageAddressable(img);
    RootInUse(m, d2);
    AgreeLookup(m, d2, img, ROOT, NAME_F);
    assert DEST_F == [SLASH] + NAME_F;
    RootDest(m, img, NAME_F);
    PathLaw(m, img, DEST_F);
  }
}
