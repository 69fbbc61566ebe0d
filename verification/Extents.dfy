/** Extent lists as flat lists of block numbers, file data spread over them, and directory
    entries gathered from them. Every nested extent/block loop of tools/totcopy.c runs over
    the flat list. */
module Extents {
  import opened Bytes
  import opened Bitmap
  import opened Volume
  import opened Metadata
  import opened Dirent

  function ExtentBlocks(e: Extent): (r: seq<nat>)
    ensures |r| == e.count
  {
    seq(e.count, k requires 0 <= k < e.count => e.start + k)
  }

  function Flat(es: seq<Extent>): seq<nat> {
    if es == [] then [] else Flat(es[..|es| - 1]) + ExtentBlocks(es[|es| - 1])
  }

  lemma FlatAppend(es: seq<Extent>, e: Extent)
    ensures Flat(es + [e]) == Flat(es) + ExtentBlocks(e)
  {
    assert (es + [e])[..|es|] == es;
  }

  lemma FlatTake(es: seq<Extent>, k: nat)
    requires k < |es|
    ensures Flat(es[..k + 1]) == Flat(es[..k]) + ExtentBlocks(es[k])
  {
    assert es[..k + 1] == es[..k] + [es[k]];
    FlatAppend(es[..k], es[k]);
  }

  lemma {:induction false} FlatPrefix(es: seq<Extent>, k: nat)
    requires k <= |es|
    ensures |Flat(es[..k])| <= |Flat(es)| && Flat(es)[..|Flat(es[..k])|] == Flat(es[..k])
    decreases |es| - k
  {
    if k == |es| { assert es[..k] == es; } else {
      FlatTake(es, k);
      FlatPrefix(es, k + 1);
      var a, b, c := Flat(es[..k]), Flat(es[..k + 1]), Flat(es);
      assert c[..|a|] == c[..|b|][..|a|] == b[..|a|] == a;
    }
  }

  /** Block b of extent e is entry |Flat(es[..e])| + b of the flat list. */
  lemma FlatAt(es: seq<Extent>, e: nat, b: nat)
    requires e < |es| && b < es[e].count
    ensures |Flat(es[..e])| + b < |Flat(es)| && Flat(es)[|Flat(es[..e])| + b] == es[e].start + b
  {
    FlatTake(es, e);
    FlatPrefix(es, e + 1);
    var n := |Flat(es[..e])| + b;
    assert Flat(es)[n] == Flat(es)[..|Flat(es[..e + 1])|][n];
  }

  ghost predicate NoDup(bs: seq<nat>) {
    forall i, j :: 0 <= i < j < |bs| ==> bs[i] != bs[j]
  }

  ghost predicate Disjoint(a: seq<nat>, b: seq<nat>) {
    forall i :: 0 <= i < |a| ==> a[i] !in b
  }

  ghost predicate SameOn(d: Disk, d': Disk, bs: seq<nat>) {
    forall i :: 0 <= i < |bs| ==> At(d', bs[i]) == At(d, bs[i])
  }

  // ---- file data ----

  function Gather(d: Disk, bs: seq<nat>): (r: seq<byte>)
    ensures |r| == BLOCK * |bs|
  {
    if bs == [] then [] else Gather(d, bs[..|bs| - 1]) + At(d, bs[|bs| - 1])
  }

  /** What `do_get` writes out for a file of this size on these blocks. */
  function Contents(d: Disk, bs: seq<nat>, size: nat): seq<byte> {
    Gather(d, bs)[..Min(size, BLOCK * |bs|)]
  }

  /** Block k of a file: its bytes, zero padded. */
  function Chunk(data: seq<byte>, k: nat): Block {
    var part := data[Min(BLOCK * k, |data|)..Min(BLOCK * (k + 1), |data|)];
    part + Zeros(BLOCK - |part|)
  }

  function WriteData(d: Disk, bs: seq<nat>, data: seq<byte>): (r: Disk)
    ensures |r| == |d|
  {
    if bs == [] then d
    else SetAt(WriteData(d, bs[..|bs| - 1], data), bs[|bs| - 1], Chunk(data, |bs| - 1))
  }

  lemma {:induction false} GatherFrame(d: Disk, d': Disk, bs: seq<nat>)
    requires SameOn(d, d', bs)
    ensures Gather(d', bs) == Gather(d, bs)
  {
    if bs != [] { GatherFrame(d, d', bs[..|bs| - 1]); }
  }

  lemma {:induction false} WriteDataOther(d: Disk, bs: seq<nat>, data: seq<byte>, b: nat)
    requires b !in bs
    ensures At(WriteData(d, bs, data), b) == At(d, b)
  {
    if bs != [] { WriteDataOther(d, bs[..|bs| - 1], data, b); }
  }

  lemma ChunkAppends(g: seq<byte>, data: seq<byte>, n: nat)
    requires |g| == BLOCK * n && g[..Min(|data|, BLOCK * n)] == data[..Min(|data|, BLOCK * n)]
    ensures (g + Chunk(data, n))[..Min(|data|, BLOCK * (n + 1))] == data[..Min(|data|, BLOCK * (n + 1))]
  {
    var lo, hi := Min(BLOCK * n, |data|), Min(BLOCK * (n + 1), |data|);
    assert Chunk(data, n)[..hi - lo] == data[lo..hi];
    assert data[..hi] == data[..lo] + data[lo..hi];
    if |data| <= BLOCK * n {
      assert (g + Chunk(data, n))[..hi] == g[..hi];
    } else {
      assert (g + Chunk(data, n))[..hi] == g + Chunk(data, n)[..hi - lo];
      assert g[..lo] == g;
    }
  }

  /** Writing a file over distinct blocks and gathering them again gives the data back, as
      far as the blocks reach. */
  lemma {:induction false} GatherWritten(d: Disk, bs: seq<nat>, data: seq<byte>)
    requires (forall i :: 0 <= i < |bs| ==> bs[i] < |d|) && NoDup(bs)
    ensures Contents(WriteData(d, bs, data), bs, |data|) == data[..Min(|data|, BLOCK * |bs|)]
  {
    if bs != [] {
      var n := |bs| - 1;
      var init, last := bs[..n], bs[n];
      var d0 := WriteData(d, init, data);
      var d1 := d0[last := Chunk(data, n)];
      GatherWritten(d, init, data);
      assert SameOn(d0, d1, init);
      GatherFrame(d0, d1, init);
      ChunkAppends(Gather(d0, init), data, n);
    }
  }

  /** Byte i of block k of a file. */
  lemma {:induction false} GatherAt(d: Disk, bs: seq<nat>, k: nat, i: nat)
    requires k < |bs| && i < BLOCK
    ensures BLOCK * k + i < BLOCK * |bs| && Gather(d, bs)[BLOCK * k + i] == At(d, bs[k])[i]
    decreases |bs|
  {
    hide At;
    var init := bs[..|bs| - 1];
    assert |Gather(d, init)| == BLOCK * |init|;
    if k < |bs| - 1 { GatherAt(d, init, k, i); }
  }

  /** The blocks hold zeros from byte `size` of the file on. */
  ghost predicate ZeroPast(d: Disk, bs: seq<nat>, size: nat) {
    forall k, i :: 0 <= k < |bs| && 0 <= i < BLOCK && BLOCK * k + i >= size ==> At(d, bs[k])[i] == 0
  }

  lemma ZeroPastFrame(d: Disk, d': Disk, bs: seq<nat>, size: nat)
    requires SameOn(d, d', bs) && ZeroPast(d, bs, size)
    ensures ZeroPast(d', bs, size)
  {
    hide At;
  }

  lemma {:induction false} WriteDataAt(d: Disk, bs: seq<nat>, data: seq<byte>, k: nat)
    requires (forall i :: 0 <= i < |bs| ==> bs[i] < |d|) && NoDup(bs) && k < |bs|
    ensures At(WriteData(d, bs, data), bs[k]) == Chunk(data, k)
    decreases |bs|
  {
    hide Chunk;
    if k < |bs| - 1 { WriteDataAt(d, bs[..|bs| - 1], data, k); }
  }

  lemma ChunkZero(data: seq<byte>, k: nat, i: nat)
    requires i < BLOCK && BLOCK * k + i >= |data|
    ensures Chunk(data, k)[i] == 0
  {
  }

  /** A written file is padded with zeros. */
  lemma WrittenZeroPast(d: Disk, bs: seq<nat>, data: seq<byte>)
    requires (forall i :: 0 <= i < |bs| ==> bs[i] < |d|) && NoDup(bs)
    ensures ZeroPast(WriteData(d, bs, data), bs, |data|)
  {
    hide Chunk, WriteData, At;
    var r := WriteData(d, bs, data);
    forall k, i | 0 <= k < |bs| && 0 <= i < BLOCK && BLOCK * k + i >= |data| ensures At(r, bs[k])[i] == 0 {
      WriteDataAt(d, bs, data, k);
      ChunkZero(data, k, i);
    }
  }

  // ---- directory entries ----

  function Entries(d: Disk, bs: seq<nat>): seq<Entry> {
    if bs == [] then [] else Walk(At(d, bs[0]), 0) + Entries(d, bs[1..])
  }

  lemma {:induction false} EntriesFrame(d: Disk, d': Disk, bs: seq<nat>)
    requires SameOn(d, d', bs)
    ensures Entries(d', bs) == Entries(d, bs)
  {
    if bs != [] {
      assert At(d', bs[0]) == At(d, bs[0]);
      EntriesFrame(d, d', bs[1..]);
    }
  }

  lemma {:induction false} EntriesConcat(d: Disk, a: seq<nat>, b: seq<nat>)
    ensures Entries(d, a + b) == Entries(d, a) + Entries(d, b)
  {
    if a == [] { assert a + b == b; } else {
      assert (a + b)[1..] == a[1..] + b;
      EntriesConcat(d, a[1..], b);
    }
  }

  lemma {:induction false} EntriesNonZero(d: Disk, bs: seq<nat>)
    ensures forall i :: 0 <= i < |Entries(d, bs)| ==> Entries(d, bs)[i].ino != 0
  {
    if bs != [] {
      WalkInodesNonZero(At(d, bs[0]), 0);
      EntriesNonZero(d, bs[1..]);
    }
  }

  ghost predicate AllTiled(d: Disk, bs: seq<nat>) {
    forall i :: 0 <= i < |bs| ==> Tiled(At(d, bs[i]), 0)
  }

  datatype Edit = Edit(at: nat, block: Block)

  /** The first block of a directory that takes the new record, and its new contents. */
  function PlaceIn(d: Disk, bs: seq<nat>, child: nat, name: seq<byte>, kind: byte): (r: Option<Edit>)
    ensures r.Some? ==> r.value.at in bs
  {
    if bs == [] then None
    else
      var p := Place(At(d, bs[0]), 0, child, name, kind);
      if p.Some? then Some(Edit(bs[0], p.value)) else PlaceIn(d, bs[1..], child, name, kind)
  }

  /** Whether one of the blocks has a slot. */
  predicate HasSlotIn(d: Disk, bs: seq<nat>, name: seq<byte>) {
    bs != [] && (HasSlot(At(d, bs[0]), 0, name) || HasSlotIn(d, bs[1..], name))
  }

  /** The number of entries before the slot that is taken, all of them if a new block is needed. */
  function SlotIn(d: Disk, bs: seq<nat>, name: seq<byte>): (k: nat)
    ensures k <= |Entries(d, bs)|
    ensures !HasSlotIn(d, bs, name) ==> k == |Entries(d, bs)|
  {
    if bs == [] then 0
    else if HasSlot(At(d, bs[0]), 0, name) then SlotBound(At(d, bs[0]), 0, name); Slot(At(d, bs[0]), 0, name)
    else |Walk(At(d, bs[0]), 0)| + SlotIn(d, bs[1..], name)
  }

  /** A slot is one in some block. */
  lemma {:induction false} HasSlotInIff(d: Disk, bs: seq<nat>, name: seq<byte>)
    ensures HasSlotIn(d, bs, name) <==> exists k :: 0 <= k < |bs| && HasSlot(At(d, bs[k]), 0, name)
  {
    hide HasSlot, At;
    if bs != [] {
      HasSlotInIff(d, bs[1..], name);
      assert forall k :: 0 <= k < |bs| - 1 ==> bs[1..][k] == bs[k + 1];
      if HasSlotIn(d, bs[1..], name) {
        var k :| 0 <= k < |bs[1..]| && HasSlot(At(d, bs[1..][k]), 0, name);
        assert HasSlot(At(d, bs[k + 1]), 0, name);
      }
    }
  }

  lemma {:induction false} PlaceInIff(d: Disk, bs: seq<nat>, child: nat, name: seq<byte>, kind: byte)
    ensures PlaceIn(d, bs, child, name, kind).Some? <==> HasSlotIn(d, bs, name)
  {
    hide Place, HasSlot, At;
    if bs != [] {
      PlaceIff(At(d, bs[0]), 0, child, name, kind);
      PlaceInIff(d, bs[1..], child, name, kind);
    }
  }

  lemma {:induction false} SlotInFrame(d: Disk, d': Disk, bs: seq<nat>, name: seq<byte>)
    requires SameOn(d, d', bs)
    ensures SlotIn(d', bs, name) == SlotIn(d, bs, name) && HasSlotIn(d', bs, name) == HasSlotIn(d, bs, name)
  {
    hide HasSlot, Slot, Walk, At;
    if bs != [] {
      assert At(d', bs[0]) == At(d, bs[0]);
      SlotInFrame(d, d', bs[1..], name);
    }
  }

  /** The position of the block that takes the record, and the byte of the file that changes. */
  lemma {:induction false} PlaceInChanges(d: Disk, bs: seq<nat>, size: nat, skip: nat, child: nat, name: seq<byte>, kind: byte)
    returns (k: nat, i: nat)
    requires forall j, i :: 0 <= j < |bs| && 0 <= i < BLOCK && BLOCK * (skip + j) + i >= size ==> At(d, bs[j])[i] == 0
    requires 0 < child < 0x1_0000_0000 && HEADER + |name| <= BLOCK && PlaceIn(d, bs, child, name, kind).Some?
    ensures var e := PlaceIn(d, bs, child, name, kind).value;
      k < |bs| && bs[k] == e.at && i < BLOCK && BLOCK * (skip + k) + i < size && e.block[i] != At(d, bs[k])[i]
  {
    hide Place, At;
    var first := At(d, bs[0]);
    if Place(first, 0, child, name, kind).Some? {
      k := 0;
      var v: nat := if size > BLOCK * skip then size - BLOCK * skip else 0;
      assert ZeroFrom(first, v);
      i := PlaceChanges(first, 0, child, name, kind, v);
    } else {
      assert forall j :: 0 <= j < |bs| - 1 ==> bs[1..][j] == bs[j + 1];
      k, i := PlaceInChanges(d, bs[1..], size, skip + 1, child, name, kind);
      k := k + 1;
    }
  }

  /** Placing a record in the blocks of a zero-padded file changes what the file reads as. */
  lemma PlaceInFileChanges(d: Disk, bs: seq<nat>, size: nat, child: nat, name: seq<byte>, kind: byte)
    requires (forall i :: 0 <= i < |bs| ==> bs[i] < |d|) && ZeroPast(d, bs, size)
    requires 0 < child < 0x1_0000_0000 && HEADER + |name| <= BLOCK && PlaceIn(d, bs, child, name, kind).Some?
    ensures var e := PlaceIn(d, bs, child, name, kind).value;
      Contents(SetAt(d, e.at, e.block), bs, size) != Contents(d, bs, size)
  {
    hide PlaceIn, Gather;
    var e := PlaceIn(d, bs, child, name, kind).value;
    var d' := SetAt(d, e.at, e.block);
    var k, i := PlaceInChanges(d, bs, size, 0, child, name, kind);
    GatherAt(d, bs, k, i);
    GatherAt(d', bs, k, i);
    assert Contents(d, bs, size)[BLOCK * k + i] != Contents(d', bs, size)[BLOCK * k + i];
  }

  /** es' is es with e inserted at k. */
  ghost predicate InsertedAt(es: seq<Entry>, es': seq<Entry>, k: nat, e: Entry) {
    k <= |es| && es' == es[..k] + [e] + es[k..]
  }

  lemma EntriesFirst(d: Disk, d': Disk, bs: seq<nat>, k: nat, e: Entry)
    requires bs != [] && SameOn(d, d', bs[1..])
    requires InsertedAt(Walk(At(d, bs[0]), 0), Walk(At(d', bs[0]), 0), k, e)
    ensures InsertedAt(Entries(d, bs), Entries(d', bs), k, e)
  {
    hide Walk, At;
    EntriesFrame(d, d', bs[1..]);
    var head, rest := Walk(At(d, bs[0]), 0), Entries(d, bs[1..]);
    assert (head + rest)[..k] == head[..k] && (head + rest)[k..] == head[k..] + rest;
  }

  lemma EntriesRest(d: Disk, d': Disk, bs: seq<nat>, k: nat, e: Entry)
    requires bs != [] && At(d', bs[0]) == At(d, bs[0])
    requires InsertedAt(Entries(d, bs[1..]), Entries(d', bs[1..]), k, e)
    ensures InsertedAt(Entries(d, bs), Entries(d', bs), |Walk(At(d, bs[0]), 0)| + k, e)
  {
    hide Walk, At;
    InsertAt(Walk(At(d, bs[0]), 0), Entries(d, bs[1..]), e, k);
  }

  lemma WalkInserted(b: Block, r: Block, k: nat, e: Entry)
    requires Inserted(b, r, 0, k, e)
    ensures InsertedAt(Walk(b, 0), Walk(r, 0), k, e) && Tiled(r, 0)
  {
  }

  /** Placing a record in one of a directory's blocks keeps every block tiled and inserts
      one entry into the directory's list. */
  lemma {:induction false} PlaceInInserts(d: Disk, bs: seq<nat>, child: nat, name: seq<byte>, kind: byte) returns (k: nat)
    requires (forall i :: 0 <= i < |bs| ==> bs[i] < |d|) && NoDup(bs) && AllTiled(d, bs)
    requires 0 < child < 0x1_0000_0000 && HEADER + |name| <= BLOCK && PlaceIn(d, bs, child, name, kind).Some?
    ensures var p := PlaceIn(d, bs, child, name, kind).value;
      && p.at < |d| && AllTiled(d[p.at := p.block], bs)
      && InsertedAt(Entries(d, bs), Entries(d[p.at := p.block], bs), k, Stored(child, name, kind))
    ensures k == SlotIn(d, bs, name)
  {
    hide Place, Walk, Tiled, Entries, Stored, InsertedAt, HasSlot, Slot;
    PlaceIff(At(d, bs[0]), 0, child, name, kind);
    var p := PlaceIn(d, bs, child, name, kind).value;
    var d' := d[p.at := p.block];
    if Place(At(d, bs[0]), 0, child, name, kind).Some? {
      k := PlaceInserts(At(d, bs[0]), 0, child, name, kind);
      WalkInserted(At(d, bs[0]), p.block, k, Stored(child, name, kind));
      EntriesFirst(d, d', bs, k, Stored(child, name, kind));
    } else {
      var k' := PlaceInInserts(d, bs[1..], child, name, kind);
      k := |Walk(At(d, bs[0]), 0)| + k';
      assert forall i :: 1 <= i < |bs| ==> bs[i] == bs[1..][i - 1];
      EntriesRest(d, d', bs, k', Stored(child, name, kind));
    }
  }
}
