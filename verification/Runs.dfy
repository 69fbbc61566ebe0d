/** Whole runs of the tool on an image: load, copy, flush on success, and sequences of runs. */
module Runs {
  import opened Bytes
  import opened Bitmap
  import opened Volume
  import opened Metadata
  import opened Dirent
  import opened Extents
  import opened Alloc
  import opened Paths
  import opened CopySpec
  import opened Invariant
  import opened FileStage
  import opened CopyTheorems
  import opened CopyResults
  import opened CopyExact

  /** The largest file whose block count fits 32 bits. */
  const MAX_COPY := 0xFFFF_FFFF * BLOCK

  ghost predicate UniqueImage(d: Disk) {
    Image(d) && NamesUnique(Load(d), d)
  }

  /** A consistent image whose files are zero past their ends. */
  ghost predicate SealedImage(d: Disk) {
    Image(d) && Sealed(Load(d), d)
  }

  lemma ImageAddressable(d: Disk)
    requires Image(d)
    ensures Addressable(Load(d)) && Load(d).sb.magic == MAGIC
  {
    hide Load;
  }

  // ---- reading an image ----

  lemma GetUnfold(d: Disk, p: Path)
    ensures var m := Load(d);
      var i := PathInode(m, d, p);
      Get(d, p) == if i == 0 then NotFound
                   else if Ino(m, d, i).kind == TYPE_DIR then IsDirectory else Content(FileData(m, d, i))
  {
    hide ReadInode, ResolvePath, Contents, BlockList, LoadMap;
  }

  /** Reading a path says that it is not found, a directory, or the bytes of a file, exactly as its
      inode says. */
  lemma GetIff(d: Disk, p: Path)
    ensures var m := Load(d);
      var i := PathInode(m, d, p);
      && (Get(d, p) == NotFound <==> i == 0)
      && (Get(d, p) == IsDirectory <==> i != 0 && Ino(m, d, i).kind == TYPE_DIR)
      && (Get(d, p).Content? ==> Get(d, p).data == FileData(m, d, i))
  {
    hide Load, Get, PathInode, Ino, FileData;
    GetUnfold(d, p);
  }

  /** The root of a consistent image is a directory, and the empty path is nothing. */
  lemma GetRoot(d: Disk, n: nat)
    requires Image(d)
    ensures Get(d, seq(n + 1, _ => 47)) == IsDirectory && Get(d, []) == NotFound
  {
    hide Get, ReadInode, Load, Resolve, MetaOk, InodesOk, NoSharing, DirsOk;
    var m := Load(d);
    ResolveSlashes(ChildStep(d, m.sb.inodeTableStart), n);
    GetIff(d, seq(n + 1, _ => 47));
    GetIff(d, []);
  }

  /** Two images with the same metadata on which everything in use agrees answer every
      `--get` alike. */
  lemma AgreeGet(m: Meta, d: Disk, d': Disk, p: Path)
    requires Closed(m, d) && Agree(m, d, d')
    ensures PathInode(m, d', p) == PathInode(m, d, p)
    ensures PathInode(m, d, p) != 0 ==>
      var i := PathInode(m, d, p);
      UsedInode(m, i) && Ino(m, d', i) == Ino(m, d, i) && FileData(m, d', i) == FileData(m, d, i)
  {
    hide UsedInode, ReadInode, Lookup, ResolvePath, FileData, SameOn;
    forall i, x | UsedInode(m, i) ensures Lookup(m, d', i, x) == Lookup(m, d, i, x) { AgreeLookup(m, d, d', i, x); }
    SameLookups(m, d, d', p);
    if PathInode(m, d, p) != 0 { AgreeData(m, d, d', PathInode(m, d, p)); }
  }

  // ---- metadata on disk ----

  lemma LoadMapSame(d: Disk, d': Disk, start: nat, n: nat)
    requires forall b :: start <= b < start + n ==> At(d', b) == At(d, b)
    ensures LoadMap(d', start, n) == LoadMap(d, start, n)
  {
    hide At;
    var a, b := LoadMap(d, start, n), LoadMap(d', start, n);
    forall k | 0 <= k < BMP_MAXBLK * BLOCK ensures b[k] == a[k] {
      if k / BLOCK < n { assert At(d', start + k / BLOCK) == At(d, start + k / BLOCK); }
    }
  }

  lemma LoadSame(d: Disk, d': Disk)
    requires Image(d) && SameBelow(d, d', Load(d).sb.inodeTableStart)
    ensures Load(d') == Load(d)
  {
    hide At, LoadMap, DecodeSb, InodesOk, NoSharing, DirsOk, SbFits, TailZero, CountClear, Bit;
    var sb := LoadSb(d);
    assert At(d', 0) == At(d, 0) && At(d', 1) == At(d, 1);
    LoadMapSame(d, d', sb.blockBitmapStart, MapBlocks(sb));
  }

  /** Flushing consistent metadata makes the disk load it, and leaves everything in use alone. */
  lemma FlushAgrees(m: Meta, d: Disk)
    requires Flushable(m, d)
    ensures Load(Flush(m, d)) == m && Agree(m, d, Flush(m, d))
  {
    hide Load, Flush, Bit, CountClear, DecodeInode, BlockList, SbFits, TailZero;
    var r := Flush(m, d);
    LoadFlush(m, d);
    forall i: nat | UsedInode(m, i) ensures Ino(m, r, i) == Ino(m, d, i) { TableBelowData(m, |d|, i); }
    forall i: nat | UsedInode(m, i) ensures SameOn(d, r, BlocksOf(m, d, i)) { assert BlocksAbove(m, d, i); }
  }

  lemma InvFlushable(m: Meta, d: Disk)
    requires Inv(m, d)
    ensures Flushable(m, d)
  {
    hide Inv, UsedInode, MetaOk, BlocksAbove;
    InvMeta(m, d);
    forall i | UsedInode(m, i) ensures BlocksAbove(m, d, i) { InvBlocksAbove(m, d, i); }
  }

  /** Flushing the metadata of a consistent state makes the disk a consistent image of it. */
  lemma FlushedImage(m: Meta, d: Disk)
    requires Inv(m, d)
    ensures Load(Flush(m, d)) == m && Image(Flush(m, d)) && Agree(m, d, Flush(m, d))
    ensures NamesUnique(m, d) ==> UniqueImage(Flush(m, d))
  {
    hide Load, Flush, Inv, NamesUnique, Flushable, Agree;
    InvFlushable(m, d);
    FlushAgrees(m, d);
    InvFrame(m, d, Flush(m, d));
  }

  lemma AgreeSym(m: Meta, d: Disk, d': Disk)
    requires Agree(m, d, d')
    ensures Agree(m, d', d)
  {
    hide UsedInode, ReadInode, BlockList, At;
  }

  // ---- a run that fails ----

  /** A run that aborts, at any exit, leaves an image that loads the same metadata, is
      still consistent, and answers every `--get` as before. */
  lemma AbortedRunInvisible(d: Disk, data: seq<byte>, dest: Path)
    requires Image(d) && |data| < MAX_DATA
    requires Addressable(Load(d)) && CopyRun(d, data, dest).Aborted?
    ensures var d' := CopyRun(d, data, dest).d;
      && Load(d') == Load(d) && Image(d')
      && (UniqueImage(d) ==> UniqueImage(d'))
      && forall p :: Get(d', p) == Get(d, p)
  {
    hide Load, Copy, Inv, NamesUnique, Get, PathInode, FileData, Ino, UsedInode, Closed, Agree;
    var m, d' := Load(d), CopyRun(d, data, dest).d;
    FailedCopyAgrees(m, d, data, dest);
    LoadSame(d, d');
    InvFrame(m, d, d');
    InvClosed(m, d);
    forall p ensures Get(d', p) == Get(d, p) {
      AgreeGet(m, d, d', p);
      GetUnfold(d, p);
      GetUnfold(d', p);
    }
  }

  // ---- a run that succeeds ----

  /** The parent of a destination on an image. */
  function ParentOf(d: Disk, dest: Path): nat {
    ParentInode(Load(d), d, dest)
  }

  ghost predicate ParentIsDir(d: Disk, dest: Path) {
    Ino(Load(d), d, ParentOf(d, dest)).kind == TYPE_DIR
  }

  /** Sizes the tool can hold: a host file, and a name that fits a directory block. */
  ghost predicate Sizes(data: seq<byte>, dest: Path) {
    |data| < MAX_DATA && HEADER + |Base(dest)| <= BLOCK
  }

  lemma RanIsCopied(d: Disk, data: seq<byte>, dest: Path)
    requires Addressable(Load(d)) && CopyRun(d, data, dest).Ran?
    ensures var c := Copy(Load(d), d, data, dest);
      c.Copied? && CopyRun(d, data, dest) == Ran(Flush(c.m, c.d), c.inum)
  {
    hide Load, Copy, Flush;
  }

  /** Whatever its parent, a successful run leaves an image that loads the copy's metadata and on
      which everything in use reads as the copy left it. */
  lemma RunState(d: Disk, data: seq<byte>, dest: Path)
    requires Image(d) && |data| < MAX_DATA
    requires Addressable(Load(d)) && CopyRun(d, data, dest).Ran?
    ensures var c, d' := Copy(Load(d), d, data, dest), CopyRun(d, data, dest).d;
      && c.Copied? && CopyRun(d, data, dest).inum == c.inum
      && Load(d') == c.m && Agree(c.m, c.d, d')
  {
    hide Load, Copy, Flush, Inv, Agree, Flushable;
    RanIsCopied(d, data, dest);
    CopyFlushable(Load(d), d, data, dest);
    FlushAgrees(Copy(Load(d), d, data, dest).m, Copy(Load(d), d, data, dest).d);
  }

  /** What reading an image gives for an inode. */
  function Answer(m: Meta, d: Disk, i: nat): GetResult {
    if i == 0 then NotFound else if Ino(m, d, i).kind == TYPE_DIR then IsDirectory else Content(FileData(m, d, i))
  }

  lemma GetAnswer(d: Disk, p: Path)
    ensures Get(d, p) == Answer(Load(d), d, PathInode(Load(d), d, p))
  {
    hide Load, Get, PathInode, Ino, FileData;
    GetUnfold(d, p);
  }

  /** Reading the image after a run gives what the copy left. */
  lemma RunObserves(d: Disk, data: seq<byte>, dest: Path, p: Path)
    requires Image(d) && Sizes(data, dest)
    requires Addressable(Load(d)) && CopyRun(d, data, dest).Ran?
    ensures var c, d' := Copy(Load(d), d, data, dest), CopyRun(d, data, dest).d;
      && c.Copied? && Load(d') == c.m && PathInode(Load(d'), d', p) == PathInode(c.m, c.d, p)
      && Get(d', p) == Answer(c.m, c.d, PathInode(c.m, c.d, p))
  {
    hide Load, Copy, Inv, Agree, Get, PathInode, Ino, FileData, UsedInode, CopyRun, Closed;
    var c, d' := Copy(Load(d), d, data, dest), CopyRun(d, data, dest).d;
    RunState(d, data, dest);
    CopyClosed(Load(d), d, data, dest);
    AgreeGet(c.m, c.d, d', p);
    GetAnswer(d', p);
  }

  /** Exactly when a run keeps the image consistent. */
  lemma RunImageIff(d: Disk, data: seq<byte>, dest: Path)
    requires Image(d) && Sizes(data, dest)
    requires Addressable(Load(d)) && CopyRun(d, data, dest).Ran?
    ensures var m, p := Load(d), ParentOf(d, dest);
      Image(CopyRun(d, data, dest).d) <==>
        ParentIsDir(d, dest) || HasSlotIn(d, BlocksOf(m, d, p), Base(dest)) || GrowsEvenly(Ino(m, d, p))
  {
    hide Load, Copy, Inv, Agree, Ino, CopyRun, HasSlotIn, BlocksOf, GrowsEvenly, ParentInode;
    var c, d' := Copy(Load(d), d, data, dest), CopyRun(d, data, dest).d;
    RunState(d, data, dest);
    CopyInvIff(Load(d), d, data, dest);
    AgreeSym(c.m, c.d, d');
    if Inv(c.m, c.d) { InvFrame(c.m, c.d, d'); }
    if Inv(c.m, d') { InvFrame(c.m, d', c.d); }
  }

  /** With a directory as parent: exactly when a run keeps the names unique. */
  lemma RunUniqueIff(d: Disk, data: seq<byte>, dest: Path)
    requires UniqueImage(d) && Sizes(data, dest) && ParentIsDir(d, dest)
    requires Addressable(Load(d)) && CopyRun(d, data, dest).Ran?
    ensures UniqueImage(CopyRun(d, data, dest).d) <==> Lookup(Load(d), d, ParentOf(d, dest), StoredName(Base(dest))) == 0
  {
    hide Load, Copy, Inv, Agree, Ino, CopyRun, NamesUnique, Lookup, ParentInode, StoredName;
    var c, d' := Copy(Load(d), d, data, dest), CopyRun(d, data, dest).d;
    RunState(d, data, dest);
    CopyKeepsInv(Load(d), d, data, dest);
    CopyNamesUniqueIff(Load(d), d, data, dest);
    AgreeSym(c.m, c.d, d');
    InvFrame(c.m, c.d, d');
    InvFrame(c.m, d', c.d);
  }

  /** Every path that answered gives the same answer. */
  ghost predicate AnswersKept(d: Disk, d': Disk) {
    forall p :: Get(d, p) != NotFound ==> Get(d', p) == Get(d, p)
  }

  /** Every path that answered gives the same answer from the same inode. */
  ghost predicate Isolated(d: Disk, d': Disk) {
    forall p :: Get(d, p) != NotFound ==> Get(d', p) == Get(d, p) && PathInode(Load(d'), d', p) == PathInode(Load(d), d, p)
  }

  lemma CopyKeepsAnswer(m: Meta, d: Disk, data: seq<byte>, dest: Path, i: nat)
    requires Inv(m, d) && |data| < MAX_DATA
    requires Addressable(m) && Copy(m, d, data, dest).Copied?
    requires Ino(m, d, ParentInode(m, d, dest)).kind == TYPE_DIR && UsedInode(m, i)
    ensures var r := Copy(m, d, data, dest); Answer(r.m, r.d, i) == Answer(m, d, i)
  {
    hide Copy, Inv, ParentInode, Ino, UsedInode, FileData, SameOn;
    if i == ParentInode(m, d, dest) { CopyKeepsParentKind(m, d, data, dest); } else { CopyKeepsData(m, d, data, dest, i); }
  }

  /** Isolation: with a directory as parent and no entry hidden, whatever path answered before
      answers the same after, and a path that was not found before is still not found or is
      the copied file. */
  lemma RunIsolation(d: Disk, data: seq<byte>, dest: Path, p: Path)
    requires Image(d) && Sizes(data, dest) && ParentIsDir(d, dest) && !Shadows(Load(d), d, dest)
    requires Addressable(Load(d)) && CopyRun(d, data, dest).Ran?
    ensures var r := CopyRun(d, data, dest);
      if Get(d, p) != NotFound then Get(r.d, p) == Get(d, p) && PathInode(Load(r.d), r.d, p) == PathInode(Load(d), d, p)
      else Get(r.d, p) == NotFound || PathInode(Load(r.d), r.d, p) == r.inum
  {
    hide Load, Copy, Inv, ParentInode, Ino, UsedInode, Get, PathInode, FileData, Agree, Shadows, CopyRun;
    var m := Load(d);
    var i := PathInode(m, d, p);
    RunState(d, data, dest);
    RunObserves(d, data, dest, p);
    GetAnswer(d, p);
    CopyKeepsPaths(m, d, data, dest, p);
    if i != 0 {
      PathInUse(m, d, p);
      CopyKeepsAnswer(m, d, data, dest, i);
    }
  }

  /** Whatever the parent, after a run a path leads where it led before, nowhere, or to the copied
      file. */
  lemma RunNewPaths(d: Disk, data: seq<byte>, dest: Path, p: Path)
    requires Image(d) && Sizes(data, dest)
    requires Addressable(Load(d)) && CopyRun(d, data, dest).Ran?
    ensures var r := CopyRun(d, data, dest);
      PathInode(Load(r.d), r.d, p) in {0, r.inum, PathInode(Load(d), d, p)}
  {
    hide Load, Copy, Inv, Get, PathInode, Agree, Shadows, CopyRun;
    RunState(d, data, dest);
    RunObserves(d, data, dest, p);
    CopyKeepsPaths(Load(d), d, data, dest, p);
  }

  /** A run below a sealed file changes the answer of the very path it was given as parent. */
  lemma StrayRunChangesAnswer(d: Disk, data: seq<byte>, dest: Path)
    requires SealedImage(d) && Sizes(data, dest) && !ParentIsDir(d, dest)
    requires Addressable(Load(d)) && CopyRun(d, data, dest).Ran?
    ensures var r := CopyRun(d, data, dest); Get(d, Parent(dest)) != NotFound && Get(r.d, Parent(dest)) != Get(d, Parent(dest))
  {
    hide Load, Copy, Inv, Ino, UsedInode, Get, FileData, Agree, Shadows, CopyRun, ResolvePath, HasSlotIn, BlocksOf, SealedFile, Gains,
      AddDirent, DirLookup, FileStored;
    var m, p := Load(d), ParentOf(d, dest);
    RunObserves(d, data, dest, Parent(dest));
    GetAnswer(d, Parent(dest));
    var m1, d1, es := CopyStages(m, d, data, dest);
    StrayCopyChangesParent(m, d, data, dest);
    StrayNeverShadows(m, d, dest);
    CopyKeepsPaths(m, d, data, dest, Parent(dest));
  }

  lemma StrayNeverShadows(m: Meta, d: Disk, dest: Path)
    requires Ino(m, d, ParentInode(m, d, dest)).kind != TYPE_DIR
    ensures !Shadows(m, d, dest)
  {
  }

  lemma ShadowBreaksIsolation(d: Disk, data: seq<byte>, dest: Path)
    requires Image(d) && Sizes(data, dest) && Shadows(Load(d), d, dest)
    requires Addressable(Load(d)) && CopyRun(d, data, dest).Ran?
    ensures !Isolated(d, CopyRun(d, data, dest).d)
  {
    hide Load, Copy, Inv, Ino, UsedInode, Get, FileData, Agree, Shadows, CopyRun, ResolvePath, PathInode;
    var d' := CopyRun(d, data, dest).d;
    RunState(d, data, dest);
    var q := ShadowedPath(Load(d), d, data, dest);
    RunObserves(d, data, dest, q);
    GetAnswer(d, q);
    assert Get(d, q) != NotFound && PathInode(Load(d'), d', q) != PathInode(Load(d), d, q);
  }

  /** Isolation, exactly: a successful run leaves every path that answered with its inode and its
      answer if and only if the parent it resolved is a directory and the new record hides no
      entry there. For names of at most 255 bytes nothing can be hidden, and already the answers
      alone are kept if and only if the parent is a directory. */
  lemma RunIsolationIff(d: Disk, data: seq<byte>, dest: Path)
    requires SealedImage(d) && Sizes(data, dest)
    requires Addressable(Load(d)) && CopyRun(d, data, dest).Ran?
    ensures var d' := CopyRun(d, data, dest).d;
      && (Isolated(d, d') <==> ParentIsDir(d, dest) && !Shadows(Load(d), d, dest))
      && (|Base(dest)| <= MAX_NAME ==> (AnswersKept(d, d') <==> ParentIsDir(d, dest)))
  {
    hide Load, Copy, Inv, Ino, UsedInode, Get, Shadows, CopyRun, PathInode, Sealed, ParentIsDir, Agree;
    var d' := CopyRun(d, data, dest).d;
    RunState(d, data, dest);
    if |Base(dest)| <= MAX_NAME { ShortNeverShadows(Load(d), d, data, dest); }
    if !ParentIsDir(d, dest) {
      StrayRunChangesAnswer(d, data, dest);
    } else if Shadows(Load(d), d, dest) {
      ShadowBreaksIsolation(d, data, dest);
    } else {
      forall p | Get(d, p) != NotFound
        ensures Get(d', p) == Get(d, p) && PathInode(Load(d'), d', p) == PathInode(Load(d), d, p)
      {
        RunIsolation(d, data, dest, p);
      }
    }
  }

  /** What the caller owes: the destination's parent is a directory in which no entry has the
      name that will be stored. For names of at most 255 bytes the tool checks the latter. */
  ghost predicate WellAimed(d: Disk, data: seq<byte>, dest: Path) {
    ParentIsDir(d, dest) && Lookup(Load(d), d, ParentOf(d, dest), StoredName(Base(dest))) == 0
  }

  lemma ShortIsAimed(d: Disk, data: seq<byte>, dest: Path)
    requires Image(d) && |data| < MAX_DATA && |Base(dest)| <= MAX_NAME && ParentIsDir(d, dest)
    requires Addressable(Load(d)) && CopyRun(d, data, dest).Ran?
    ensures WellAimed(d, data, dest)
  {
    hide Load, Copy, Inv, CopyRun, Lookup, ParentInode, Ino, Agree;
    RunState(d, data, dest);
    assert StoredName(Base(dest)) == Base(dest);
    NewNameWasAbsent(Load(d), d, data, dest, Base(dest));
  }

  lemma AimedNeverShadows(d: Disk, data: seq<byte>, dest: Path)
    requires WellAimed(d, data, dest)
    ensures !Shadows(Load(d), d, dest)
  {
    hide Load, Lookup, Gains, ParentInode;
  }

  /** A well-aimed run keeps the image consistent, its names unique and its files sealed. */
  lemma RunKeepsImage(d: Disk, data: seq<byte>, dest: Path)
    requires Image(d) && Sizes(data, dest) && ParentIsDir(d, dest)
    requires Addressable(Load(d)) && CopyRun(d, data, dest).Ran?
    ensures var d' := CopyRun(d, data, dest).d;
      && Image(d') && (SealedImage(d) ==> SealedImage(d'))
      && (UniqueImage(d) && WellAimed(d, data, dest) ==> UniqueImage(d'))
  {
    hide Load, Copy, Inv, NamesUnique, ParentInode, Ino, UsedInode, Sealed, CopyRun, Agree, HasSlotIn, BlocksOf, GrowsEvenly, Lookup,
      StoredName;
    var m := Load(d);
    RunImageIff(d, data, dest);
    if UniqueImage(d) { RunUniqueIff(d, data, dest); }
    if Sealed(m, d) {
      RunState(d, data, dest);
      CopyKeepsSealed(m, d, data, dest);
      AgreeSealed(Copy(m, d, data, dest).m, Copy(m, d, data, dest).d, CopyRun(d, data, dest).d);
    }
  }

  lemma AgreeSealed(m: Meta, d: Disk, d': Disk)
    requires Agree(m, d, d') && Sealed(m, d)
    ensures Sealed(m, d')
  {
    hide UsedInode, ReadInode, BlockList, ZeroPast, SameOn;
    forall i | UsedInode(m, i) && Ino(m, d', i).kind != TYPE_DIR ensures SealedFile(m, d', i) {
      ZeroPastFrame(d, d', BlocksOf(m, d, i), Ino(m, d, i).size);
    }
  }

  lemma DataCovered(n: nat)
    ensures n <= MAX_COPY ==> n <= BLOCK * BlocksNeeded(n)
    ensures n > MAX_COPY ==> BLOCK * BlocksNeeded(n) < n
  {
    var blocks := (n + BLOCK - 1) / BLOCK;
    assert BLOCK * (blocks - 1) < n <= BLOCK * blocks;
    if n > MAX_COPY {
      assert blocks >= 0x1_0000_0000;
      assert blocks % 0x1_0000_0000 <= blocks - 0x1_0000_0000;
    } else {
      assert blocks <= 0xFFFF_FFFF;
    }
  }

  /** Where the copied file is found after a run, for every destination. */
  lemma RunResolvesIff(d: Disk, data: seq<byte>, dest: Path)
    requires Image(d) && |data| < MAX_DATA
    requires Addressable(Load(d)) && CopyRun(d, data, dest).Ran?
    ensures var r := CopyRun(d, data, dest);
      PathInode(Load(r.d), r.d, dest) == r.inum <==>
        ParentIsDir(d, dest) && PathInode(Load(d), d, FullParent(dest)) == ParentOf(d, dest) && |Base(dest)| <= MAX_NAME
  {
    hide Load, Copy, Inv, ParentInode, Ino, UsedInode, Get, PathInode, FileData, Agree, CopyRun, Lookup;
    var m, r := Load(d), CopyRun(d, data, dest);
    RunState(d, data, dest);
    CopyResolvesIff(m, d, data, dest);
    if |Base(dest)| <= MAX_NAME {
      RunObserves(d, data, dest, dest);
    } else {
      CopiedFile(m, d, data, dest);
      PathLaw(Load(r.d), r.d, dest);
      LongNameNotFound(Load(r.d), r.d, PathInode(Load(r.d), r.d, FullParent(dest)), Base(dest));
    }
  }

  /** Round trip, for every byte string, every destination and every fragmentation in which the
      copy succeeds: the destination is the copied file and reads back its bytes exactly when
      it can be found there and the block count of the file fits 32 bits. */
  lemma RoundTripIff(d: Disk, data: seq<byte>, dest: Path)
    requires Image(d) && |data| < MAX_DATA
    requires Addressable(Load(d)) && CopyRun(d, data, dest).Ran?
    ensures var r := CopyRun(d, data, dest);
      PathInode(Load(r.d), r.d, dest) == r.inum && Get(r.d, dest) == Content(data) <==>
        && ParentIsDir(d, dest) && PathInode(Load(d), d, FullParent(dest)) == ParentOf(d, dest) && |Base(dest)| <= MAX_NAME
        && |data| <= MAX_COPY
  {
    hide Load, Copy, Inv, ParentInode, Ino, UsedInode, Get, PathInode, FileData, Agree, BlocksNeeded, CopyRun, ParentIsDir, ZeroPast, Lookup;
    var m, r := Load(d), CopyRun(d, data, dest);
    RunResolvesIff(d, data, dest);
    if PathInode(Load(r.d), r.d, dest) == r.inum {
      RunState(d, data, dest);
      RunObserves(d, data, dest, dest);
      CopiedFile(m, d, data, dest);
      DataCovered(|data|);
      assert |data| <= MAX_COPY ==> data[..|data|] == data;
    }
  }

  /** A destination whose parent path fits the 256-byte buffer is not led elsewhere. */
  lemma ShortParentKept(d: Disk, dest: Path)
    requires LastSlash(dest) < PARENT_MAX
    ensures PathInode(Load(d), d, FullParent(dest)) == ParentOf(d, dest)
  {
    assert Parent(dest) == FullParent(dest);
  }

  // ---- sequences of runs ----

  datatype Op = Op(data: seq<byte>, dest: Path)

  function After(d: Disk, op: Op): Disk {
    if Addressable(Load(d)) then CopyRun(d, op.data, op.dest).d else d
  }

  function AfterAll(d: Disk, ops: seq<Op>): Disk
    decreases |ops|
  {
    if ops == [] then d else AfterAll(After(d, ops[0]), ops[1..])
  }

  /** Files and names of the sequence have sizes the tool can hold. */
  ghost predicate AllSizes(ops: seq<Op>) {
    forall k :: 0 <= k < |ops| ==> Sizes(ops[k].data, ops[k].dest)
  }

  ghost predicate StepAimed(d: Disk, op: Op) {
    Addressable(Load(d)) && CopyRun(d, op.data, op.dest).Ran? ==> WellAimed(d, op.data, op.dest)
  }

  /** Every copy of the sequence that succeeds was well aimed at its time; copies that fail
      may be anything. */
  ghost predicate AllAimed(d: Disk, ops: seq<Op>)
    decreases |ops|
  {
    ops == [] || (StepAimed(d, ops[0]) && AllAimed(After(d, ops[0]), ops[1..]))
  }

  /** One step of a sequence. */
  lemma StepKeeps(d: Disk, op: Op)
    requires Image(d) && Sizes(op.data, op.dest) && StepAimed(d, op)
    ensures Image(After(d, op)) && AnswersKept(d, After(d, op))
    ensures (UniqueImage(d) ==> UniqueImage(After(d, op))) && (SealedImage(d) ==> SealedImage(After(d, op)))
  {
    hide Load, Copy, Inv, NamesUnique, Get, Sealed, ParentIsDir, Lookup, CopyRun, PathInode, Shadows, Sizes;
    ImageAddressable(d);
    var r := CopyRun(d, op.data, op.dest);
    if r.Ran? {
      RunKeepsImage(d, op.data, op.dest);
      AimedNeverShadows(d, op.data, op.dest);
      forall p | Get(d, p) != NotFound ensures Get(r.d, p) == Get(d, p) { RunIsolation(d, op.data, op.dest, p); }
    } else {
      FailedStep(d, op);
    }
  }

  lemma FailedStep(d: Disk, op: Op)
    requires Image(d) && Sizes(op.data, op.dest) && Addressable(Load(d)) && !CopyRun(d, op.data, op.dest).Ran?
    ensures Image(After(d, op)) && AnswersKept(d, After(d, op))
    ensures (UniqueImage(d) ==> UniqueImage(After(d, op))) && (SealedImage(d) ==> SealedImage(After(d, op)))
  {
    hide Load, Copy, Inv, NamesUnique, Get, Sealed, Agree;
    if CopyRun(d, op.data, op.dest).Aborted? {
      AbortedRunInvisible(d, op.data, op.dest);
      FailedCopyAgrees(Load(d), d, op.data, op.dest);
      if Sealed(Load(d), d) { AgreeSealed(Load(d), d, After(d, op)); }
    }
  }

  /** From any consistent image, after any sequence of runs, successful or failed: the image
      is consistent, and every path that answered still gives the same answer. */
  lemma {:induction false} AllRunsKeep(d: Disk, ops: seq<Op>)
    requires Image(d) && AllSizes(ops) && AllAimed(d, ops)
    ensures Image(AfterAll(d, ops)) && AnswersKept(d, AfterAll(d, ops))
    ensures (UniqueImage(d) ==> UniqueImage(AfterAll(d, ops))) && (SealedImage(d) ==> SealedImage(AfterAll(d, ops)))
    decreases |ops|
  {
    hide Load, Get, StepAimed, After, Image, UniqueImage, SealedImage, Sizes;
    if ops != [] {
      StepKeeps(d, ops[0]);
      AllRunsKeep(After(d, ops[0]), ops[1..]);
    }
  }

  /** Every run of the sequence kept the names unique and every answer there was. */
  ghost predicate AllKept(d: Disk, ops: seq<Op>)
    decreases |ops|
  {
    || ops == []
    || (UniqueImage(After(d, ops[0])) && AnswersKept(d, After(d, ops[0])) && AllKept(After(d, ops[0]), ops[1..]))
  }

  lemma StepKeepsIff(d: Disk, op: Op)
    requires UniqueImage(d) && SealedImage(d) && Sizes(op.data, op.dest)
    ensures UniqueImage(After(d, op)) && AnswersKept(d, After(d, op)) <==> StepAimed(d, op)
  {
    hide Load, Copy, Inv, NamesUnique, Get, Sealed, Lookup, Sizes, AnswersKept, PathInode, ParentInode, Ino, StoredName;
    ImageAddressable(d);
    if StepAimed(d, op) {
      StepKeeps(d, op);
    } else if ParentIsDir(d, op.dest) {
      RunUniqueIff(d, op.data, op.dest);
    } else {
      StrayBreaksAnswers(d, op.data, op.dest);
    }
  }

  lemma StrayBreaksAnswers(d: Disk, data: seq<byte>, dest: Path)
    requires SealedImage(d) && Sizes(data, dest) && !ParentIsDir(d, dest)
    requires Addressable(Load(d)) && CopyRun(d, data, dest).Ran?
    ensures !AnswersKept(d, CopyRun(d, data, dest).d)
  {
    hide Load, Get, CopyRun, SealedImage, Sizes, ParentIsDir;
    StrayRunChangesAnswer(d, data, dest);
  }

  /** Exactly, for any sequence of runs from an image of the tools: every run keeps the names
      unique and every answer if and only if every successful copy was well aimed. */
  lemma {:induction false} AllRunsKeepIff(d: Disk, ops: seq<Op>)
    requires UniqueImage(d) && SealedImage(d) && AllSizes(ops)
    ensures AllKept(d, ops) <==> AllAimed(d, ops)
    decreases |ops|
  {
    hide Load, Get, StepAimed, After, UniqueImage, SealedImage, Sizes, AnswersKept;
    if ops != [] {
      StepKeepsIff(d, ops[0]);
      if StepAimed(d, ops[0]) {
        SealedIsImage(d);
        StepKeeps(d, ops[0]);
        AllRunsKeepIff(After(d, ops[0]), ops[1..]);
      }
    }
  }

  lemma SealedIsImage(d: Disk)
    requires SealedImage(d)
    ensures Image(d)
  {
  }

  /** A copy within the limits of size, parent path and name. */
  ghost predicate Readable(op: Op) {
    |op.data| <= MAX_COPY && LastSlash(op.dest) < PARENT_MAX && |Base(op.dest)| <= MAX_NAME
  }

  lemma CopyReadsBack(d: Disk, op: Op)
    requires Image(d) && Sizes(op.data, op.dest) && StepAimed(d, op) && Readable(op)
    requires Addressable(Load(d)) && CopyRun(d, op.data, op.dest).Ran?
    ensures Get(After(d, op), op.dest) == Content(op.data)
  {
    hide Load, Inv, Get, CopyRun, ParentIsDir, Lookup, PathInode, ParentInode, LastSlash;
    ShortParentKept(d, op.dest);
    RoundTripIff(d, op.data, op.dest);
  }

  /** Every file copied at any point of a sequence reads back its bytes at the end. */
  lemma {:induction false} AllCopiesReadBack(d: Disk, ops: seq<Op>, k: nat)
    requires Image(d) && AllSizes(ops) && AllAimed(d, ops) && k < |ops| && Readable(ops[k])
    requires Addressable(Load(AfterAll(d, ops[..k])))
    requires CopyRun(AfterAll(d, ops[..k]), ops[k].data, ops[k].dest).Ran?
    ensures Get(AfterAll(d, ops), ops[k].dest) == Content(ops[k].data)
    decreases k
  {
    hide Load, Get, Image, UniqueImage, SealedImage, CopyRun, Readable, StepAimed, After, Sizes, AllAimed, AfterAll, AnswersKept, Addressable;
    AllStep(d, ops);
    StepKeeps(d, ops[0]);
    if k == 0 {
      NoRuns(d, ops);
      CopyReadsBack(d, ops[0]);
      AllRunsKeep(After(d, ops[0]), ops[1..]);
      KeptAnswer(After(d, ops[0]), AfterAll(d, ops), ops[0].dest);
    } else {
      assert ops[..k][0] == ops[0] && ops[..k][1..] == ops[1..][..k - 1];
      AllStep(d, ops[..k]);
      AllCopiesReadBack(After(d, ops[0]), ops[1..], k - 1);
    }
  }

  lemma AllStep(d: Disk, ops: seq<Op>)
    requires ops != []
    ensures AfterAll(d, ops) == AfterAll(After(d, ops[0]), ops[1..])
    ensures AllAimed(d, ops) ==> StepAimed(d, ops[0]) && AllAimed(After(d, ops[0]), ops[1..])
  {
    hide StepAimed, After;
  }

  lemma NoRuns(d: Disk, ops: seq<Op>)
    ensures AfterAll(d, ops[..0]) == d
  {
  }

  lemma KeptAnswer(d: Disk, d': Disk, p: Path)
    requires AnswersKept(d, d') && Get(d, p) != NotFound
    ensures Get(d', p) == Get(d, p)
  {
    hide Get;
  }
}
