/** What one copy does to a consistent image, stated on paths and file contents. */
module CopyTheorems {
  import opened Bytes
  import opened Bitmap
  import opened Volume
  import opened Metadata
  import opened Dirent
  import opened Extents
  import opened Alloc
  import opened Paths
  import opened CopySpec
  import opened Invariant
  import opened DirStage

  const MAX_NAME := 255

  ghost function UsedSet(m: Meta): (s: set<nat>)
    ensures forall i :: i in s <==> UsedInode(m, i)
  {
    set i: nat | i < MAX_INODES && UsedInode(m, i)
  }

  function Lookup(m: Meta, d: Disk, i: nat, name: seq<byte>): nat {
    Child(d, m.sb.inodeTableStart, i, name)
  }

  function PathInode(m: Meta, d: Disk, p: Path): nat {
    ResolvePath(d, m.sb.inodeTableStart, p)
  }

  // ---- observers on a consistent image ----

  lemma LookupUnfold(m: Meta, d: Disk, i: nat, name: seq<byte>)
    ensures Lookup(m, d, i, name) ==
      if Ino(m, d, i).kind != TYPE_DIR then 0 else Find(Entries(d, BlocksOf(m, d, i)), name)
  {
    hide ReadInode, BlockList, Entries, Find;
  }

  lemma LookupInUse(m: Meta, d: Disk, i: nat, name: seq<byte>)
    requires Inv(m, d) && UsedInode(m, i)
    ensures Lookup(m, d, i, name) == 0 || UsedInode(m, Lookup(m, d, i, name))
  {
    hide ReadInode, BlockList, Entries, Find, Bit, MetaOk, InodesOk, NoSharing, AllTiled, Lookup;
    LookupUnfold(m, d, i, name);
    var es := Entries(d, BlocksOf(m, d, i));
    if Ino(m, d, i).kind == TYPE_DIR && Find(es, name) != 0 {
      var k := FindWitness(es, name);
      assert DirOk(m, d, BlocksOf(m, d, i));
    }
  }

  /** Lookups lead from inodes in use to inodes in use. */
  ghost predicate Closed(m: Meta, d: Disk) {
    && UsedInode(m, ROOT)
    && forall i, x :: UsedInode(m, i) && Lookup(m, d, i, x) != 0 ==> UsedInode(m, Lookup(m, d, i, x))
  }

  lemma InvClosed(m: Meta, d: Disk)
    requires Inv(m, d)
    ensures Closed(m, d)
  {
    hide Inv, UsedInode, Lookup;
    RootInUse(m, d);
    forall i, x | UsedInode(m, i) && Lookup(m, d, i, x) != 0 ensures UsedInode(m, Lookup(m, d, i, x)) {
      LookupInUse(m, d, i, x);
    }
  }

  /** Every path of a consistent image resolves to nothing or to an inode in use. */
  lemma PathInUse(m: Meta, d: Disk, p: Path)
    requires Inv(m, d)
    ensures PathInode(m, d, p) == 0 || UsedInode(m, PathInode(m, d, p))
  {
    InvClosed(m, d);
    SameLookups(m, d, d, p);
  }

  /** Two disks with the same lookups resolve every path alike. */
  lemma SameLookups(m: Meta, d: Disk, d': Disk, p: Path)
    requires Closed(m, d)
    requires forall i, x :: UsedInode(m, i) ==> Lookup(m, d', i, x) == Lookup(m, d, i, x)
    ensures PathInode(m, d', p) == PathInode(m, d, p)
    ensures PathInode(m, d, p) == 0 || UsedInode(m, PathInode(m, d, p))
  {
    hide Child, UsedInode, ResolveFrom;
    var a, b := ChildStep(d, m.sb.inodeTableStart), ChildStep(d', m.sb.inodeTableStart);
    forall i, x | i in UsedSet(m) ensures b(i, x) == a(i, x) && (a(i, x) != 0 ==> a(i, x) in UsedSet(m)) {
      assert a(i, x) == Lookup(m, d, i, x) && b(i, x) == Lookup(m, d', i, x);
    }
    if p != [] { ResolveFromSame(a, b, UsedSet(m), ROOT, SkipSlashes(p)); }
  }

  /** Lookups that changed only to a childless inode n: a path resolves as before or to n. */
  lemma NewLookups(m: Meta, d: Disk, m': Meta, d': Disk, n: nat, p: Path)
    requires Closed(m, d)
    requires forall i, x :: UsedInode(m, i) ==> Lookup(m', d', i, x) in {n, Lookup(m, d, i, x)}
    requires forall x :: Lookup(m', d', n, x) == 0
    ensures PathInode(m', d', p) in {0, n, PathInode(m, d, p)}
  {
    hide Child, UsedInode, ResolveFrom;
    var a, b := ChildStep(d, m.sb.inodeTableStart), ChildStep(d', m'.sb.inodeTableStart);
    forall i, x | i in UsedSet(m)
      ensures b(i, x) == n || (b(i, x) == a(i, x) && (a(i, x) != 0 ==> a(i, x) in UsedSet(m)))
    {
      assert a(i, x) == Lookup(m, d, i, x) && b(i, x) == Lookup(m', d', i, x);
    }
    forall x ensures b(n, x) == 0 { assert b(n, x) == Lookup(m', d', n, x); }
    if p != [] { ResolveFromNew(a, b, UsedSet(m), n, ROOT, SkipSlashes(p)); }
  }

  /** Lookups that kept every answer they gave: paths that resolved keep their inode. */
  lemma KeptLookups(m: Meta, d: Disk, m': Meta, d': Disk, p: Path)
    requires Closed(m, d) && PathInode(m, d, p) != 0
    requires forall i, x :: UsedInode(m, i) && x != [] && Lookup(m, d, i, x) != 0 ==>
      Lookup(m', d', i, x) == Lookup(m, d, i, x)
    ensures PathInode(m', d', p) == PathInode(m, d, p)
  {
    hide Child, UsedInode, ResolveFrom;
    var a, b := ChildStep(d, m.sb.inodeTableStart), ChildStep(d', m'.sb.inodeTableStart);
    forall i, x | i in UsedSet(m) && x != [] && a(i, x) != 0 ensures b(i, x) == a(i, x) && a(i, x) in UsedSet(m) {
      assert a(i, x) == Lookup(m, d, i, x) && b(i, x) == Lookup(m', d', i, x);
    }
    ResolveFromKept(a, b, UsedSet(m), ROOT, SkipSlashes(p));
  }

  lemma RootInUse(m: Meta, d: Disk)
    requires Inv(m, d)
    ensures UsedInode(m, ROOT) && !UsedInode(m, MAX_INODES)
  {
    hide Bit;
  }

  lemma AgreeLookup(m: Meta, d: Disk, d': Disk, i: nat, name: seq<byte>)
    requires Agree(m, d, d') && UsedInode(m, i)
    ensures Lookup(m, d', i, name) == Lookup(m, d, i, name)
  {
    hide ReadInode, BlockList, Entries, Find, UsedInode, Lookup;
    LookupUnfold(m, d, i, name);
    LookupUnfold(m, d', i, name);
    AgreeDir(m, d, d', i);
  }

  /** The bytes of a file, as `do_get` reads them. */
  function FileData(m: Meta, d: Disk, i: nat): seq<byte> {
    Contents(d, BlocksOf(m, d, i), Ino(m, d, i).size)
  }

  lemma AgreeData(m: Meta, d: Disk, d': Disk, i: nat)
    requires Agree(m, d, d') && UsedInode(m, i)
    ensures FileData(m, d', i) == FileData(m, d, i) && Ino(m, d', i) == Ino(m, d, i)
  {
    hide ReadInode, BlockList, Gather, UsedInode;
    AgreeDir(m, d, d', i);
  }

  // ---- directory insertion is a map update ----

  ghost function DirectoryMap(m: Meta, d: Disk, i: nat): map<seq<byte>, nat> {
    DirMap(Entries(d, BlocksOf(m, d, i)))
  }

  lemma InsertedSplit(es: seq<Entry>, es': seq<Entry>, k: nat, e: Entry)
    requires InsertedAt(es, es', k, e)
    ensures es == es[..k] + es[k..] && es' == es[..k] + [e] + es[k..]
  {
  }

  lemma StoredShort(child: nat, name: seq<byte>, kind: byte)
    requires |name| <= MAX_NAME
    ensures Stored(child, name, kind) == Entry(child, name, kind)
  {
    assert name[..|name|] == name;
  }

  /** `add_dirent` with a name no live entry equals, through all three placements: the
      directory becomes its old map with the folded name bound to the child, every other
      directory keeps its map, names stay unique and blocks stay tiled. */
  lemma AddDirentIsMapUpdate(m: Meta, d: Disk, p: nat, child: nat, name: seq<byte>, kind: byte)
    requires Inv(m, d) && UsedInode(m, p) && Ino(m, d, p).kind == TYPE_DIR
    requires UsedInode(m, child) && child != 0 && |name| <= MAX_NAME && kind == Ino(m, d, child).kind
    requires Addressable(m) && AddDirent(m, d, p, child, name, kind).EntryAdded?
    requires DirLookup(d, Ino(m, d, p), name) == 0
    ensures var r := AddDirent(m, d, p, child, name, kind);
      && DirectoryMap(r.m, r.d, p) == DirectoryMap(m, d, p)[Fold(name) := child]
      && (forall i :: UsedInode(m, i) && i != p ==> DirectoryMap(r.m, r.d, i) == DirectoryMap(m, d, i))
      && (NamesUnique(m, d) ==> NamesUnique(r.m, r.d))
      && Inv(r.m, r.d)
  {
    hide Inv, UsedInode, ReadInode, BlockList, Entries, Find, DirMap, Absent, Stored, AddDirent, Unique, NamesUnique, SameOn;
    var r := AddDirent(m, d, p, child, name, kind);
    var k := AddDirentInserts(m, d, p, child, name, kind);
    var es, es' := Entries(d, BlocksOf(m, d, p)), Entries(r.d, BlocksOf(r.m, r.d, p));
    EntriesNonZero(d, BlocksOf(m, d, p));
    FindZeroIsAbsent(es, name);
    StoredShort(child, name, kind);
    InsertedSplit(es, es', k, Entry(child, name, kind));
    InsertIsMapUpdate(es[..k], es[k..], Entry(child, name, kind));
    forall i | UsedInode(m, i) && i != p ensures DirectoryMap(r.m, r.d, i) == DirectoryMap(m, d, i) {
      EntriesFrame(d, r.d, BlocksOf(m, d, i));
    }
    if NamesUnique(m, d) {
      UniqueAt(m, d, p);
      InsertKeepsUnique(es[..k], es[k..], Entry(child, name, kind));
      KeptUnique(m, d, r.m, r.d, p);
    }
  }

  lemma UniqueAt(m: Meta, d: Disk, p: nat)
    requires NamesUnique(m, d) && UsedInode(m, p) && Ino(m, d, p).kind == TYPE_DIR
    ensures Unique(Entries(d, BlocksOf(m, d, p)))
  {
  }
}
