/** tools/totcopy.c as functions of the disk image: lookup, `--get`, and one copy run with
    all its exits. */
module CopySpec {
  import opened Bytes
  import opened Volume
  import opened Metadata
  import opened Dirent
  import opened Extents
  import opened Alloc
  import opened Paths

  // ---- observers ----

  function BlockList(ino: Inode): seq<nat> {
    Flat(Live(ino))
  }

  function DirLookup(d: Disk, dir: Inode, name: seq<byte>): nat {
    Find(Entries(d, BlockList(dir)), name)
  }

  /** One component of `resolve_path`: only directories are searched. */
  function Child(d: Disk, table: nat, dir: nat, name: seq<byte>): nat {
    var ino := ReadInode(d, table, dir);
    if ino.kind != TYPE_DIR then 0 else DirLookup(d, ino, name)
  }

  function ChildStep(d: Disk, table: nat): Step {
    (dir: nat, name: seq<byte>) => Child(d, table, dir, name)
  }

  function ResolvePath(d: Disk, table: nat, p: Path): nat {
    Resolve(ChildStep(d, table), p)
  }

  datatype GetResult = Content(data: seq<byte>) | NotFound | IsDirectory

  /** `do_get` on an image. */
  function Get(d: Disk, p: Path): GetResult {
    var table := LoadSb(d).inodeTableStart;
    var i := ResolvePath(d, table, p);
    if i == 0 then NotFound
    else
      var ino := ReadInode(d, table, i);
      if ino.kind == TYPE_DIR then IsDirectory else Content(Contents(d, BlockList(ino), ino.size))
  }

  // ---- the copy ----

  /** `blocks_needed`, computed in 64 bits and stored in 32. */
  function BlocksNeeded(size: nat): nat {
    (size + BLOCK - 1) / BLOCK % 0x1_0000_0000
  }

  /** Host file sizes are below this. */
  const MAX_DATA := 0x8000_0000_0000_0000

  function PadExtents(es: seq<Extent>): ExtentArray
    requires |es| <= NUM_EXTENTS
  {
    es + seq(NUM_EXTENTS - |es|, _ => Extent(0, 0, 0))
  }

  function FileInode(size: nat, es: seq<Extent>): Inode
    requires |es| <= NUM_EXTENTS
  {
    Inode(TYPE_FILE, 420, 1, size, BlocksNeeded(size), 0, 0, 0, 0, |es|, 0, 0, PadExtents(es), 0)
  }

  datatype Failure = InvalidDest | ParentNotFound | AlreadyExists | NoFreeInode | NoSpaceForData
                   | DirectoryOutOfExtents | NoSpaceForDirectory

  datatype Insertion = EntryAdded(m: Meta, d: Disk) | Refused(why: Failure)

  /** The directory inode after one more block was attached to it. */
  function GrowDir(dir: Inode, block: nat): Inode
    requires dir.extentCount < NUM_EXTENTS
  {
    dir.(extents := dir.extents[dir.extentCount := Extent(block, 1, dir.size / BLOCK % 0x1_0000_0000)],
         extentCount := dir.extentCount + 1,
         size := (dir.size + BLOCK) % 0x1_0000_0000_0000_0000,
         blocksUsed := (dir.blocksUsed + 1) % 0x1_0000_0000_0000_0000)
  }

  /** `add_dirent`: a slot in one of the directory's blocks, else a new block. */
  function AddDirent(m: Meta, d: Disk, dir: nat, child: nat, name: seq<byte>, kind: byte): Insertion
    requires Addressable(m)
  {
    var table := m.sb.inodeTableStart;
    var ino := ReadInode(d, table, dir);
    match PlaceIn(d, BlockList(ino), child, name, kind)
    case Some(e) => EntryAdded(m, SetAt(d, e.at, e.block))
    case None =>
      if ino.extentCount >= NUM_EXTENTS then Refused(DirectoryOutOfExtents)
      else
        match AllocBlock(m)
        case None => Refused(NoSpaceForDirectory)
        case Some(g) =>
          var d1 := SetAt(d, g.value, FreshBlock(child, name, kind));
          EntryAdded(g.m, WriteInode(d1, table, dir, GrowDir(ino, g.value)))
  }

  /** The file stage of `do_copy`: data blocks, then the inode. */
  function StoreFile(m: Meta, d: Disk, n: nat, es: seq<Extent>, data: seq<byte>): Disk
    requires |es| <= NUM_EXTENTS
  {
    WriteInode(WriteData(d, Flat(es), data), m.sb.inodeTableStart, n, FileInode(|data|, es))
  }

  datatype Outcome = Copied(m: Meta, d: Disk, inum: nat) | Failed(d: Disk, why: Failure)

  lemma AllocExtentsBound(m: Meta, remaining: nat, logical: nat, es: seq<Extent>)
    requires Addressable(m) && |es| <= NUM_EXTENTS
    ensures var g := AllocExtents(m, remaining, logical, es); g.Some? ==> |g.value.value| <= NUM_EXTENTS
    decreases remaining
  {
    if remaining > 0 && |es| < NUM_EXTENTS && AllocRun(m, remaining).Some? {
      var g := AllocRun(m, remaining).value;
      AllocExtentsBound(g.m, remaining - g.value.len, logical + g.value.len,
                        es + [Extent(g.value.start, g.value.len, logical)]);
    }
  }

  /** `do_copy`, with the image as each exit leaves it. Nothing is flushed here. */
  function Copy(m: Meta, d: Disk, data: seq<byte>, dest: Path): Outcome
    requires Addressable(m)
  {
    var table, base := m.sb.inodeTableStart, Base(dest);
    if base == [] then Failed(d, InvalidDest)
    else
      var parent := ResolvePath(d, table, Parent(dest));
      if parent == 0 then Failed(d, ParentNotFound)
      else if DirLookup(d, ReadInode(d, table, parent), base) != 0 then Failed(d, AlreadyExists)
      else CopyInto(m, d, data, parent, base)
  }

  function CopyInto(m: Meta, d: Disk, data: seq<byte>, parent: nat, base: seq<byte>): Outcome
    requires Addressable(m)
  {
    match AllocInode(m)
    case None => Failed(d, NoFreeInode)
    case Some(gi) =>
      match AllocExtents(gi.m, BlocksNeeded(|data|), 0, [])
      case None => Failed(d, NoSpaceForData)
      case Some(ge) =>
        AllocExtentsBound(gi.m, BlocksNeeded(|data|), 0, []);
        var d1 := StoreFile(m, d, gi.value, ge.value, data);
        match AddDirent(ge.m, d1, parent, gi.value, base, TYPE_FILE)
        case Refused(why) => Failed(d1, why)
        case EntryAdded(m2, d2) => Copied(m2, d2, gi.value)
  }

  datatype RunResult = Ran(d: Disk, inum: nat) | Aborted(d: Disk, why: Failure) | NotTotfs(d: Disk)

  /** One whole run of the tool in copy mode: load, copy, and flush only on success. */
  function CopyRun(d: Disk, data: seq<byte>, dest: Path): RunResult
    requires Addressable(Load(d))
  {
    var m := Load(d);
    if m.sb.magic != MAGIC then NotTotfs(d)
    else
      match Copy(m, d, data, dest)
      case Failed(d1, why) => Aborted(d1, why)
      case Copied(m1, d1, n) => Ran(Flush(m1, d1), n)
  }
}
