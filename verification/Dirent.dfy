/** Directory blocks: packed variable-length records, edited in place.

    A record is an 8-byte header (inode, rec_len, name_len, file_type) followed by the
    name; rec_len leads to the next record. An inode of 0 marks a free slot. */
module Dirent {
  import opened Bytes
  import opened Bitmap
  import opened Volume

  const HEADER := 8

  // ---- names ----

  function Upper(c: byte): byte {
    if 97 <= c <= 122 then c - 32 else c
  }

  function Fold(name: seq<byte>): (r: seq<byte>)
    ensures |r| == |name|
  {
    seq(|name|, i requires 0 <= i < |name| => Upper(name[i]))
  }

  /** Equality ignoring ASCII case. */
  predicate NameEq(a: seq<byte>, b: seq<byte>) {
    Fold(a) == Fold(b)
  }

  /** Upper and lower case of the same ASCII letter. */
  predicate SameLetter(x: byte, y: byte) {
    ('a' as int <= x <= 'z' as int && y == x - 32) || ('a' as int <= y <= 'z' as int && x == y - 32)
  }

  /** Names are equal exactly when they have the same length and the same letters up to case. */
  lemma NameEqIff(a: seq<byte>, b: seq<byte>)
    ensures NameEq(a, b) <==> |a| == |b| && forall i :: 0 <= i < |a| ==> a[i] == b[i] || SameLetter(a[i], b[i])
  {
    if NameEq(a, b) {
      forall i | 0 <= i < |a| ensures a[i] == b[i] || SameLetter(a[i], b[i]) { assert Fold(a)[i] == Fold(b)[i]; }
    } else if |a| == |b| {
      var i :| 0 <= i < |a| && Fold(a)[i] != Fold(b)[i];
    }
  }

  // ---- records ----

  predicate HasHeader(off: nat) {
    off + HEADER <= BLOCK
  }

  function RecInode(b: Block, off: nat): nat
    requires HasHeader(off)
  {
    FromLE(b[off..off + 4])
  }

  function RecLen(b: Block, off: nat): nat
    requires HasHeader(off)
  {
    FromLE(b[off + 4..off + 6])
  }

  function NameLen(b: Block, off: nat): nat
    requires HasHeader(off)
  {
    b[off + 6]
  }

  /** The file_type byte. */
  function RecKind(b: Block, off: nat): nat
    requires HasHeader(off)
  {
    b[off + 7]
  }

  /** The name of the record at off, cut at the end of the block. */
  function RecName(b: Block, off: nat): seq<byte>
    requires HasHeader(off)
  {
    b[off + HEADER..Min(off + HEADER + NameLen(b, off), BLOCK)]
  }

  /** Bytes a record with this name length occupies: header and name, rounded up to 4. */
  function Footprint(nameLen: nat): (n: nat)
    ensures n % 4 == 0 && HEADER + nameLen <= n < HEADER + nameLen + 4
  {
    (HEADER + nameLen + 3) / 4 * 4
  }

  datatype Entry = Entry(ino: nat, name: seq<byte>, kind: nat)

  /** The entry of the record at off, if it is live. */
  function HeadEntries(b: Block, off: nat): seq<Entry>
    requires HasHeader(off)
  {
    if RecInode(b, off) != 0 then [Entry(RecInode(b, off), RecName(b, off), RecKind(b, off))] else []
  }

  /** The live entries from off on, in the order of the record walk. */
  function Walk(b: Block, off: nat): seq<Entry>
    decreases BLOCK - off
  {
    if !HasHeader(off) || RecLen(b, off) == 0 then []
    else HeadEntries(b, off) + Walk(b, off + RecLen(b, off))
  }

  /** From off on the records are 4-aligned, each holds its header and name, and together
      they cover the block exactly. */
  ghost predicate Tiled(b: Block, off: nat)
    decreases BLOCK - off
  {
    off == BLOCK
    || (&& HasHeader(off)
        && off % 4 == 0
        && RecLen(b, off) % 4 == 0
        && RecLen(b, off) >= HEADER + NameLen(b, off)
        && off + RecLen(b, off) <= BLOCK
        && Tiled(b, off + RecLen(b, off)))
  }

  // ---- lookup ----

  function Find(es: seq<Entry>, name: seq<byte>): nat {
    if es == [] then 0
    else if NameEq(es[0].name, name) then es[0].ino
    else Find(es[1..], name)
  }

  ghost predicate Unique(es: seq<Entry>) {
    forall i, j :: 0 <= i < j < |es| ==> !NameEq(es[i].name, es[j].name)
  }

  ghost predicate Absent(es: seq<Entry>, name: seq<byte>) {
    forall i :: 0 <= i < |es| ==> !NameEq(es[i].name, name)
  }

  /** A directory as a finite map from case-folded names; the first match wins. */
  function DirMap(es: seq<Entry>): map<seq<byte>, nat> {
    if es == [] then map[] else DirMap(es[1..])[Fold(es[0].name) := es[0].ino]
  }

  lemma {:induction false} FindIsMapLookup(es: seq<Entry>, name: seq<byte>)
    ensures Find(es, name) == if Fold(name) in DirMap(es) then DirMap(es)[Fold(name)] else 0
  {
    if es != [] { FindIsMapLookup(es[1..], name); }
  }

  lemma {:induction false} FindConcat(a: seq<Entry>, b: seq<Entry>, name: seq<byte>)
    requires forall i :: 0 <= i < |a| ==> a[i].ino != 0
    ensures Find(a + b, name) == if Find(a, name) != 0 then Find(a, name) else Find(b, name)
  {
    if a == [] { assert a + b == b; } else {
      assert (a + b)[1..] == a[1..] + b;
      FindConcat(a[1..], b, name);
    }
  }

  lemma FindFold(es: seq<Entry>, x: seq<byte>, y: seq<byte>)
    requires NameEq(x, y)
    ensures Find(es, x) == Find(es, y)
  {
    FindIsMapLookup(es, x);
    FindIsMapLookup(es, y);
  }

  /** Looking up a name after an entry was inserted at position k. */
  lemma FindInserted(es: seq<Entry>, k: nat, e: Entry, x: seq<byte>)
    requires k <= |es| && e.ino != 0 && forall i :: 0 <= i < |es| ==> es[i].ino != 0
    ensures Find(es[..k] + [e] + es[k..], x) ==
      if NameEq(x, e.name) && Find(es[..k], x) == 0 then e.ino else Find(es, x)
  {
    hide NameEq, Fold;
    var pre, post := es[..k], es[k..];
    assert es == pre + post && pre + [e] + post == pre + ([e] + post);
    FindConcat(pre, post, x);
    FindConcat(pre, [e] + post, x);
    assert ([e] + post)[1..] == post;
    NameEqSym(x, e.name);
  }

  lemma NameEqSym(a: seq<byte>, b: seq<byte>)
    ensures NameEq(a, b) == NameEq(b, a)
  {
  }

  lemma FindPrefixZero(es: seq<Entry>, k: nat, x: seq<byte>)
    requires k <= |es| && Find(es, x) == 0 && forall i :: 0 <= i < |es| ==> es[i].ino != 0
    ensures Find(es[..k], x) == 0
  {
    assert es == es[..k] + es[k..];
    FindConcat(es[..k], es[k..], x);
  }

  lemma {:induction false} FindZeroIsAbsent(es: seq<Entry>, name: seq<byte>)
    requires forall i :: 0 <= i < |es| ==> es[i].ino != 0
    ensures Find(es, name) == 0 <==> Absent(es, name)
  {
    if es != [] {
      FindZeroIsAbsent(es[1..], name);
      if Absent(es, name) { assert forall i :: 0 <= i < |es| - 1 ==> es[1..][i] == es[i + 1]; }
      if Absent(es[1..], name) && !NameEq(es[0].name, name) {
        forall i | 0 <= i < |es| ensures !NameEq(es[i].name, name) {
          if i > 0 { assert es[1..][i - 1] == es[i]; }
        }
      }
    }
  }

  /** Any non-zero answer of a lookup is the inode of one of the entries. */
  lemma {:induction false} FindWitness(es: seq<Entry>, name: seq<byte>) returns (k: nat)
    requires Find(es, name) != 0
    ensures k < |es| && es[k].ino == Find(es, name) && NameEq(es[k].name, name)
  {
    if NameEq(es[0].name, name) { k := 0; } else {
      k := FindWitness(es[1..], name);
      k := k + 1;
    }
  }

  lemma {:induction false} WalkInodesNonZero(b: Block, off: nat)
    ensures forall i :: 0 <= i < |Walk(b, off)| ==> Walk(b, off)[i].ino != 0
    decreases BLOCK - off
  {
    if HasHeader(off) && RecLen(b, off) != 0 { WalkInodesNonZero(b, off + RecLen(b, off)); }
  }

  /** Inserting one entry whose name was absent is a map update. */
  lemma {:induction false} InsertIsMapUpdate(pre: seq<Entry>, post: seq<Entry>, e: Entry)
    requires Absent(pre + post, e.name)
    ensures DirMap(pre + [e] + post) == DirMap(pre + post)[Fold(e.name) := e.ino]
  {
    if pre == [] {
      assert pre + [e] + post == [e] + post && pre + post == post;
      assert ([e] + post)[1..] == post;
    } else {
      assert (pre + [e] + post)[1..] == pre[1..] + [e] + post;
      assert (pre + post)[1..] == pre[1..] + post;
      assert !NameEq((pre + post)[0].name, e.name);
      forall i | 0 <= i < |pre[1..] + post| ensures !NameEq((pre[1..] + post)[i].name, e.name) {
        assert (pre[1..] + post)[i] == (pre + post)[i + 1];
      }
      InsertIsMapUpdate(pre[1..], post, e);
    }
  }

  lemma InsertKeepsUnique(pre: seq<Entry>, post: seq<Entry>, e: Entry)
    requires Unique(pre + post) && Absent(pre + post, e.name)
    ensures Unique(pre + [e] + post)
  {
    var all, more := pre + post, pre + [e] + post;
    forall i, j | 0 <= i < j < |more| ensures !NameEq(more[i].name, more[j].name) {
      var i', j' := if i < |pre| then i else i - 1, if j < |pre| then j else j - 1;
      if i == |pre| { assert more[j] == all[j']; }
      else if j == |pre| { assert more[i] == all[i']; }
      else { assert more[i] == all[i'] && more[j] == all[j'] && i' < j'; }
    }
  }

  // ---- insertion ----

  function Header(ino: nat, recLen: nat, nameLen: byte, kind: byte): (h: seq<byte>)
    ensures |h| == HEADER
  {
    ToLE(ino, 4) + ToLE(recLen, 2) + [nameLen, kind]
  }

  /** Stores header and name at off; what would fall past the block end is dropped. */
  function PutRecord(b: Block, off: nat, ino: nat, recLen: nat, name: seq<byte>, kind: byte): Block
    requires HasHeader(off)
  {
    Splice(b, off, Header(ino, recLen, |name| % 256, kind) + name[..Min(|name|, BLOCK - off - HEADER)])
  }

  function PutRecLen(b: Block, off: nat, recLen: nat): Block
    requires HasHeader(off)
  {
    Splice(b, off + 4, ToLE(recLen, 2))
  }

  /** The footprint of the new record, in 16 bits. */
  function Needed(nameLen: nat): (n: nat)
    ensures HEADER + nameLen <= BLOCK ==> n == Footprint(nameLen)
  {
    Footprint(nameLen) % 0x1_0000
  }

  /** The record walk of `add_dirent` over one block: reuse the first free slot that is
      large enough, or split the first record whose slack is. */
  function Place(b: Block, off: nat, child: nat, name: seq<byte>, kind: byte): Option<Block>
    decreases BLOCK - off
  {
    if !HasHeader(off) || RecLen(b, off) == 0 then None
    else
      var len, needed := RecLen(b, off), Needed(|name|);
      var actual := Footprint(NameLen(b, off));
      if RecInode(b, off) == 0 && len >= needed then Some(PutRecord(b, off, child, len, name, kind))
      else if Slack(len, actual) >= needed && HasHeader(off + actual) then
        Some(PutRecord(PutRecLen(b, off, actual), off + actual, child, Slack(len, actual), name, kind))
      else Place(b, off + len, child, name, kind)
  }

  /** Whether the walk finds a slot at all. */
  predicate HasSlot(b: Block, off: nat, name: seq<byte>)
    decreases BLOCK - off
  {
    && HasHeader(off) && RecLen(b, off) != 0
    && var len, needed, actual := RecLen(b, off), Needed(|name|), Footprint(NameLen(b, off));
       || (RecInode(b, off) == 0 && len >= needed)
       || (Slack(len, actual) >= needed && HasHeader(off + actual))
       || HasSlot(b, off + len, name)
  }

  /** The number of live entries before the slot the walk takes. */
  function Slot(b: Block, off: nat, name: seq<byte>): nat
    decreases BLOCK - off
  {
    if !HasHeader(off) || RecLen(b, off) == 0 then 0
    else
      var len, needed, actual := RecLen(b, off), Needed(|name|), Footprint(NameLen(b, off));
      if RecInode(b, off) == 0 && len >= needed then 0
      else if Slack(len, actual) >= needed && HasHeader(off + actual) then |HeadEntries(b, off)|
      else |HeadEntries(b, off)| + Slot(b, off + len, name)
  }

  lemma PlaceStep(b: Block, off: nat, child: nat, name: seq<byte>, kind: byte)
    requires HasHeader(off) && RecLen(b, off) != 0
    ensures var len, needed := RecLen(b, off), Needed(|name|);
      var actual := Footprint(NameLen(b, off));
      Place(b, off, child, name, kind) ==
        if RecInode(b, off) == 0 && len >= needed then Some(PutRecord(b, off, child, len, name, kind))
        else if Slack(len, actual) >= needed && HasHeader(off + actual) then
          Some(PutRecord(PutRecLen(b, off, actual), off + actual, child, Slack(len, actual), name, kind))
        else Place(b, off + len, child, name, kind)
  {
    hide RecLen, RecInode, NameLen, Footprint, Needed, PutRecord, PutRecLen, Slack;
  }

  lemma SlotStep(b: Block, off: nat, name: seq<byte>)
    requires HasHeader(off) && RecLen(b, off) != 0
    ensures var len, needed, actual := RecLen(b, off), Needed(|name|), Footprint(NameLen(b, off));
      Slot(b, off, name) ==
        if RecInode(b, off) == 0 && len >= needed then 0
        else if Slack(len, actual) >= needed && HasHeader(off + actual) then |HeadEntries(b, off)|
        else |HeadEntries(b, off)| + Slot(b, off + len, name)
  {
    hide RecLen, RecInode, NameLen, Footprint, Needed, Slack, HeadEntries;
  }

  lemma {:induction false} SlotBound(b: Block, off: nat, name: seq<byte>)
    ensures Slot(b, off, name) <= |Walk(b, off)|
    decreases BLOCK - off
  {
    hide RecLen, RecInode, NameLen, Footprint, Needed, Slack, HeadEntries, Walk, Slot;
    if HasHeader(off) && RecLen(b, off) != 0 {
      SlotStep(b, off, name);
      WalkStep(b, off);
      SlotBound(b, off + RecLen(b, off), name);
    } else {
      SlotNone(b, off, name);
    }
  }

  lemma SlotNone(b: Block, off: nat, name: seq<byte>)
    requires !HasHeader(off) || RecLen(b, off) == 0
    ensures Slot(b, off, name) == 0
  {
    hide RecLen;
  }

  lemma {:induction false} PlaceIff(b: Block, off: nat, child: nat, name: seq<byte>, kind: byte)
    ensures Place(b, off, child, name, kind).Some? <==> HasSlot(b, off, name)
    decreases BLOCK - off
  {
    hide RecInode, RecLen, NameLen, PutRecord, PutRecLen, Footprint, Needed, Slack;
    if HasHeader(off) && RecLen(b, off) != 0 { PlaceIff(b, off + RecLen(b, off), child, name, kind); }
  }

  /** The 16-bit difference `rec_len - actual`. */
  function Slack(len: nat, actual: nat): (s: nat) {
    if len >= actual then len - actual else (len - actual) % 0x1_0000
  }

  /** A fresh directory block: its one record covers the whole block. */
  function FreshBlock(child: nat, name: seq<byte>, kind: byte): Block {
    PutRecord(Zeros(BLOCK), 0, child, BLOCK, name, kind)
  }

  // ---- what insertion does to a tiled block ----

  /** A record read at off depends only on the bytes from off on. */
  lemma {:induction false} SameSuffix(a: Block, b: Block, off: nat)
    requires off <= BLOCK && a[off..] == b[off..]
    ensures Walk(a, off) == Walk(b, off) && Tiled(a, off) == Tiled(b, off)
    decreases BLOCK - off
  {
    hide RecInode, RecLen, NameLen, RecName, RecKind;
    if HasHeader(off) {
      SameHeader(a, b, off);
      var len := RecLen(a, off);
      if off + len <= BLOCK && len > 0 {
        assert a[off + len..] == a[off..][len..] && b[off + len..] == b[off..][len..];
        SameSuffix(a, b, off + len);
      }
    }
  }

  lemma SameHeader(a: Block, b: Block, off: nat)
    requires HasHeader(off) && a[off..] == b[off..]
    ensures RecInode(a, off) == RecInode(b, off) && RecLen(a, off) == RecLen(b, off)
    ensures NameLen(a, off) == NameLen(b, off) && RecName(a, off) == RecName(b, off) && RecKind(a, off) == RecKind(b, off)
  {
    hide FromLE, ToLE;
    assert forall i :: off <= i < BLOCK ==> a[i] == a[off..][i - off] && b[i] == b[off..][i - off];
    assert a[off..off + 4] == b[off..off + 4] && a[off + 4..off + 6] == b[off + 4..off + 6];
  }

  lemma ReadPutRecord(b: Block, off: nat, ino: nat, recLen: nat, name: seq<byte>, kind: byte)
    requires off + HEADER + |name| <= BLOCK && ino < 0x1_0000_0000 && recLen < 0x1_0000
    ensures var r := PutRecord(b, off, ino, recLen, name, kind);
      && RecInode(r, off) == ino && RecLen(r, off) == recLen && NameLen(r, off) == |name| % 256
      && RecName(r, off) == name[..|name| % 256] && RecKind(r, off) == kind
      && r[..off] == b[..off] && r[off + HEADER + |name|..] == b[off + HEADER + |name|..]
  {
    hide FromLE, ToLE;
    PowValues();
    FromToLE(ino, 4);
    FromToLE(recLen, 2);
    var r := PutRecord(b, off, ino, recLen, name, kind);
    assert name[..Min(|name|, BLOCK - off - HEADER)] == name;
    var chunk := Header(ino, recLen, |name| % 256, kind) + name;
    assert forall i :: off <= i < off + |chunk| ==> r[i] == r[off..off + |chunk|][i - off];
    assert r[off..off + 4] == ToLE(ino, 4);
    assert r[off + 4..off + 6] == ToLE(recLen, 2);
    assert r[off + HEADER..off + HEADER + |name| % 256] == name[..|name| % 256];
  }

  lemma ReadPutRecLen(b: Block, off: nat, recLen: nat)
    requires HasHeader(off) && recLen < 0x1_0000
    ensures var r := PutRecLen(b, off, recLen);
      && RecInode(r, off) == RecInode(b, off) && RecLen(r, off) == recLen && NameLen(r, off) == NameLen(b, off)
      && RecName(r, off) == RecName(b, off) && RecKind(r, off) == RecKind(b, off)
      && r[..off] == b[..off] && r[off + HEADER..] == b[off + HEADER..]
  {
    hide FromLE, ToLE;
    PowValues();
    FromToLE(recLen, 2);
    var r := PutRecLen(b, off, recLen);
    assert r[off..off + 4] == b[off..off + 4];
  }

  /** The name a record keeps: its length is stored in one byte. */
  function StoredName(name: seq<byte>): seq<byte> {
    name[..|name| % 256]
  }

  function Stored(child: nat, name: seq<byte>, kind: byte): Entry {
    Entry(child, StoredName(name), kind)
  }

  lemma TailFrom(a: Block, b: Block, i: nat, j: nat)
    requires i <= j <= BLOCK && a[i..] == b[i..]
    ensures a[j..] == b[j..]
  {
    assert a[j..] == a[i..][j - i..] && b[j..] == b[i..][j - i..];
  }

  /** The record at off reads as entry e with length len. */
  ghost predicate Reads(b: Block, off: nat, len: nat, e: Entry)
    requires HasHeader(off)
  {
    && RecInode(b, off) == e.ino && RecLen(b, off) == len && NameLen(b, off) == |e.name| && RecName(b, off) == e.name
    && RecKind(b, off) == e.kind
  }

  lemma WalkStep(b: Block, off: nat)
    requires HasHeader(off) && RecLen(b, off) != 0
    ensures Walk(b, off) == HeadEntries(b, off) + Walk(b, off + RecLen(b, off))
  {
  }

  lemma WholeName(b: Block, off: nat)
    requires HasHeader(off) && off + HEADER + NameLen(b, off) <= BLOCK
    ensures |RecName(b, off)| == NameLen(b, off)
  {
  }

  /** One record in front of a tiled rest. */
  lemma ConsRecord(b: Block, off: nat, len: nat, e: Entry)
    requires HasHeader(off) && Reads(b, off, len, e)
    requires off % 4 == 0 && len % 4 == 0 && HEADER + |e.name| <= len && off + len <= BLOCK
    requires Tiled(b, off + len)
    ensures Tiled(b, off)
    ensures Walk(b, off) == (if e.ino != 0 then [e] else []) + Walk(b, off + len)
  {
    hide RecInode, RecLen, NameLen, RecName, RecKind;
  }

  /** Reusing the free slot at off. */
  lemma ReuseSlot(b: Block, off: nat, child: nat, name: seq<byte>, kind: byte)
    requires Tiled(b, off) && HasHeader(off) && RecInode(b, off) == 0
    requires Footprint(|name|) <= RecLen(b, off) && 0 < child < 0x1_0000_0000
    ensures var r := PutRecord(b, off, child, RecLen(b, off), name, kind);
      r[..off] == b[..off] && Tiled(r, off) && Walk(r, off) == [Stored(child, name, kind)] + Walk(b, off)
  {
    hide FromLE, ToLE, PutRecord, PutRecLen, RecInode, RecLen, NameLen, RecName, RecKind, Walk, Footprint;
    var len := RecLen(b, off);
    var r := PutRecord(b, off, child, len, name, kind);
    ReadPutRecord(b, off, child, len, name, kind);
    TailFrom(b, r, off + HEADER + |name|, off + len);
    SameSuffix(b, r, off + len);
    WalkStep(b, off);
    ConsRecord(r, off, len, Stored(child, name, kind));
  }

  /** A block that reads as the old record, shortened, then a new one, then the old rest. */
  lemma SplitShape(b: Block, r: Block, off: nat, actual: nat, e: Entry)
    requires Tiled(b, off) && HasHeader(off) && HasHeader(off + actual)
    requires actual % 4 == 0 && HEADER + NameLen(b, off) <= actual
    requires e.ino != 0 && actual + HEADER + |e.name| <= RecLen(b, off)
    requires Reads(r, off, actual, Entry(RecInode(b, off), RecName(b, off), RecKind(b, off)))
    requires Reads(r, off + actual, RecLen(b, off) - actual, e)
    requires r[off + RecLen(b, off)..] == b[off + RecLen(b, off)..]
    ensures Tiled(r, off)
    ensures Walk(r, off) == HeadEntries(b, off) + ([e] + Walk(b, off + RecLen(b, off)))
  {
    hide RecInode, RecLen, NameLen, RecName, RecKind, Walk, Tiled, Footprint;
    var len := RecLen(b, off);
    TiledHead(b, off);
    SameSuffix(b, r, off + len);
    ConsRecord(r, off + actual, len - actual, e);
    WholeName(b, off);
    ConsRecord(r, off, actual, Entry(RecInode(b, off), RecName(b, off), RecKind(b, off)));
  }

  /** Splitting the record at off: it keeps its entry and the new record takes its slack. */
  lemma SplitSlack(b: Block, off: nat, child: nat, name: seq<byte>, kind: byte)
    requires Tiled(b, off) && HasHeader(off)
    requires Footprint(NameLen(b, off)) + Footprint(|name|) <= RecLen(b, off) && 0 < child < 0x1_0000_0000
    ensures var actual := Footprint(NameLen(b, off));
      var r := PutRecord(PutRecLen(b, off, actual), off + actual, child, RecLen(b, off) - actual, name, kind);
      && r[..off] == b[..off] && Tiled(r, off)
      && Walk(r, off) == HeadEntries(b, off) + ([Stored(child, name, kind)] + Walk(b, off + RecLen(b, off)))
  {
    hide FromLE, ToLE, PutRecord, PutRecLen, RecInode, RecLen, NameLen, RecName, RecKind, Walk, Footprint;
    var len, actual := RecLen(b, off), Footprint(NameLen(b, off));
    var next := off + actual;
    var c := PutRecLen(b, off, actual);
    var r := PutRecord(c, next, child, len - actual, name, kind);
    ReadPutRecLen(b, off, actual);
    ReadPutRecord(c, next, child, len - actual, name, kind);
    TailFrom(b, c, off + HEADER, off + len);
    TailFrom(c, r, next + HEADER + |name|, off + len);
    KeepsPrefixRecord(c, r, off, next);
    WholeName(b, off);
    SplitShape(b, r, off, actual, Stored(child, name, kind));
  }

  /** Bytes before `next` unchanged: the record at off that ends at `next` reads the same. */
  lemma KeepsPrefixRecord(c: Block, r: Block, off: nat, next: nat)
    requires HasHeader(off) && off + HEADER + NameLen(c, off) <= next <= BLOCK && r[..next] == c[..next]
    ensures RecInode(r, off) == RecInode(c, off) && RecLen(r, off) == RecLen(c, off)
    ensures NameLen(r, off) == NameLen(c, off) && RecName(r, off) == RecName(c, off) && RecKind(r, off) == RecKind(c, off)
    ensures r[..off] == c[..off]
  {
    hide FromLE, ToLE;
    assert forall i :: 0 <= i < next ==> r[i] == r[..next][i] && c[i] == c[..next][i];
    assert r[off..off + 4] == c[off..off + 4] && r[off + 4..off + 6] == c[off + 4..off + 6];
  }

  /** The bytes of r are those of b with e inserted at position k of the walk from off. */
  ghost predicate Inserted(b: Block, r: Block, off: nat, k: nat, e: Entry)
    requires off <= BLOCK
  {
    && r[..off] == b[..off] && Tiled(r, off) && k <= |Walk(b, off)|
    && Walk(r, off) == Walk(b, off)[..k] + [e] + Walk(b, off)[k..]
  }

  lemma InsertAt(head: seq<Entry>, rest: seq<Entry>, e: Entry, j: nat)
    requires j <= |rest|
    ensures head + (rest[..j] + [e] + rest[j..])
         == (head + rest)[..|head| + j] + [e] + (head + rest)[|head| + j..]
  {
  }

  /** The record at off is kept and the insertion happens behind it. */
  lemma InsertedBehind(b: Block, r: Block, off: nat, k: nat, e: Entry)
    requires Tiled(b, off) && HasHeader(off) && Inserted(b, r, off + RecLen(b, off), k, e)
    ensures Inserted(b, r, off, |HeadEntries(b, off)| + k, e)
  {
    hide RecInode, RecLen, NameLen, RecName, RecKind, Walk;
    WalkStep(b, off);
    var len := RecLen(b, off);
    KeepsPrefixRecord(b, r, off, off + len);
    WholeName(b, off);
    ConsRecord(r, off, len, Entry(RecInode(b, off), RecName(b, off), RecKind(b, off)));
    InsertAt(HeadEntries(b, off), Walk(b, off + len), e, k);
  }

  /** Whatever slot `Place` picks in a tiled block, the block stays tiled and the walk gains
      exactly the new entry at some position k. */
  lemma {:induction false} PlaceInserts(b: Block, off: nat, child: nat, name: seq<byte>, kind: byte) returns (k: nat)
    requires off <= BLOCK && Tiled(b, off) && 0 < child < 0x1_0000_0000 && HEADER + |name| <= BLOCK
    requires Place(b, off, child, name, kind).Some?
    ensures Inserted(b, Place(b, off, child, name, kind).value, off, k, Stored(child, name, kind)) && k == Slot(b, off, name)
    decreases BLOCK - off
  {
    hide RecInode, RecLen, NameLen, RecName, RecKind, PutRecord, PutRecLen, Walk, Footprint, Needed, HeadEntries, Place, Slot, Inserted, Stored, Tiled;
    PlaceLive(b, off, child, name, kind);
    TiledHead(b, off);
    PlaceStep(b, off, child, name, kind);
    SlotStep(b, off, name);
    var len, needed, actual := RecLen(b, off), Needed(|name|), Footprint(NameLen(b, off));
    if RecInode(b, off) == 0 && len >= needed {
      k := 0;
      ReuseInserts(b, off, child, name, kind);
    } else if Slack(len, actual) >= needed && HasHeader(off + actual) {
      k := |HeadEntries(b, off)|;
      SplitInserts(b, off, child, name, kind);
    } else {
      var k' := PlaceInserts(b, off + len, child, name, kind);
      k := |HeadEntries(b, off)| + k';
      InsertedBehind(b, Place(b, off, child, name, kind).value, off, k', Stored(child, name, kind));
    }
  }

  lemma PlaceLive(b: Block, off: nat, child: nat, name: seq<byte>, kind: byte)
    requires Place(b, off, child, name, kind).Some?
    ensures HasHeader(off) && RecLen(b, off) != 0
  {
    hide RecLen;
  }

  /** The first record of a tiled block has room for its header and name, and the rest is tiled. */
  lemma TiledHead(b: Block, off: nat)
    requires Tiled(b, off) && HasHeader(off)
    ensures Footprint(NameLen(b, off)) <= RecLen(b, off) && off + RecLen(b, off) <= BLOCK && Tiled(b, off + RecLen(b, off))
    ensures off % 4 == 0 && RecLen(b, off) % 4 == 0
  {
    hide RecLen, NameLen;
    var n := RecLen(b, off);
    assert n % 4 == 0 && n >= HEADER + NameLen(b, off);
  }

  lemma ReuseInserts(b: Block, off: nat, child: nat, name: seq<byte>, kind: byte)
    requires Tiled(b, off) && HasHeader(off) && RecInode(b, off) == 0
    requires Footprint(|name|) <= RecLen(b, off) && 0 < child < 0x1_0000_0000
    ensures Inserted(b, PutRecord(b, off, child, RecLen(b, off), name, kind), off, 0, Stored(child, name, kind))
  {
    hide RecInode, RecLen, NameLen, PutRecord, Walk, Footprint, Stored, Tiled;
    ReuseSlot(b, off, child, name, kind);
    InsertAt([], Walk(b, off), Stored(child, name, kind), 0);
  }

  lemma SplitInserts(b: Block, off: nat, child: nat, name: seq<byte>, kind: byte)
    requires Tiled(b, off) && HasHeader(off) && RecLen(b, off) != 0
    requires Footprint(NameLen(b, off)) + Footprint(|name|) <= RecLen(b, off) && 0 < child < 0x1_0000_0000
    ensures var actual := Footprint(NameLen(b, off));
      && HasHeader(off + actual)
      && Inserted(b, PutRecord(PutRecLen(b, off, actual), off + actual, child, RecLen(b, off) - actual, name, kind),
                  off, |HeadEntries(b, off)|, Stored(child, name, kind))
  {
    hide RecInode, RecLen, NameLen, PutRecord, PutRecLen, Walk, Footprint, HeadEntries, Stored, Tiled;
    TiledHead(b, off);
    SplitSlack(b, off, child, name, kind);
    WalkStep(b, off);
    var head, rest, e := HeadEntries(b, off), Walk(b, off + RecLen(b, off)), Stored(child, name, kind);
    assert rest[..0] + [e] + rest[0..] == [e] + rest;
    InsertAt(head, rest, e, 0);
  }

  // ---- which record gives its room ----

  /** The offsets of the records from off on, live or free, in the order of the walk. */
  function Records(b: Block, off: nat): seq<nat>
    decreases BLOCK - off
  {
    if !HasHeader(off) || RecLen(b, off) == 0 then [] else [off] + Records(b, off + RecLen(b, off))
  }

  /** The record at off has room for a name of n bytes: it is free and long enough, or its own
      header and name leave enough behind. */
  ghost predicate Takes(b: Block, off: nat, n: nat) {
    && HasHeader(off)
    && ((RecInode(b, off) == 0 && 8 + n <= RecLen(b, off)) || Footprint(NameLen(b, off)) + 8 + n <= RecLen(b, off))
  }

  lemma RoundUp(x: nat, n: nat)
    requires x % 4 == 0
    ensures Footprint(n) <= x <==> 8 + n <= x
  {
  }

  /** One step of the search in a tiled block: the record takes the name or the search goes on. */
  lemma SlotHere(b: Block, off: nat, name: seq<byte>)
    requires Tiled(b, off) && HasHeader(off) && HEADER + |name| <= BLOCK
    ensures var len, needed, actual := RecLen(b, off), Needed(|name|), Footprint(NameLen(b, off));
      && len != 0 && off + len <= BLOCK && Tiled(b, off + len)
      && (Takes(b, off, |name|) <==> (RecInode(b, off) == 0 && len >= needed) || (Slack(len, actual) >= needed && HasHeader(off + actual)))
  {
    hide RecInode, RecLen, NameLen, Tiled, Footprint;
    TiledHead(b, off);
    var len, actual := RecLen(b, off), Footprint(NameLen(b, off));
    RoundUp(len, |name|);
    RoundUp(len - actual, |name|);
  }

  /** Record i of the walk from off is the first one with room for n bytes. */
  ghost predicate FirstTaking(b: Block, off: nat, n: nat, i: nat) {
    && i < |Records(b, off)| && Takes(b, Records(b, off)[i], n)
    && forall j :: 0 <= j < i ==> !Takes(b, Records(b, off)[j], n)
  }

  lemma FirstTakingStep(b: Block, off: nat, n: nat, i: nat)
    requires HasHeader(off) && RecLen(b, off) != 0 && !Takes(b, off, n) && FirstTaking(b, off + RecLen(b, off), n, i)
    ensures FirstTaking(b, off, n, i + 1)
    ensures Records(b, off)[..i + 2] == [off] + Records(b, off + RecLen(b, off))[..i + 1]
    ensures Records(b, off)[i + 1] == Records(b, off + RecLen(b, off))[i]
  {
    hide RecLen, Takes, Records;
    RecordStep(b, off);
    var rs, rest := Records(b, off), Records(b, off + RecLen(b, off));
    forall j | 0 <= j < i + 1 ensures !Takes(b, rs[j], n) { if j > 0 { assert rs[j] == rest[j - 1]; } }
  }

  /** A tiled block that has a slot has a record with room, and the slot is that of the first one:
      the new entry comes behind all live entries up to it. */
  lemma {:induction false} FirstSlot(b: Block, off: nat, name: seq<byte>) returns (i: nat)
    requires off <= BLOCK && Tiled(b, off) && HEADER + |name| <= BLOCK && HasSlot(b, off, name)
    ensures FirstTaking(b, off, |name|, i) && i < |Records(b, off)|
    ensures var r := Records(b, off)[i];
      Slot(b, off, name) == CountLive(b, Records(b, off)[..i + 1]) - (if Reused(b, r, |name|) then CountLive(b, [r]) else 0)
    decreases BLOCK - off
  {
    hide RecInode, RecLen, NameLen, Tiled, Footprint, Needed, Slack, Takes, Slot, Reused, HeadEntries, Records, CountLive, HasSlot;
    SlotLive(b, off, name);
    SlotHere(b, off, name);
    SlotStep(b, off, name);
    ReuseIff(b, off, name);
    LiveHead(b, off);
    var len := RecLen(b, off);
    if Takes(b, off, |name|) {
      i := 0;
      TakesFirst(b, off, |name|);
    } else {
      SlotGoesOn(b, off, name);
      i := FirstSlot(b, off + len, name);
      FirstTakingStep(b, off, |name|, i);
      CountLiveCons(b, off, Records(b, off + len)[..i + 1]);
      i := i + 1;
    }
  }

  lemma SlotLive(b: Block, off: nat, name: seq<byte>)
    requires HasSlot(b, off, name)
    ensures HasHeader(off) && RecLen(b, off) != 0
  {
    hide RecLen;
  }

  lemma SlotGoesOn(b: Block, off: nat, name: seq<byte>)
    requires Tiled(b, off) && HasHeader(off) && HEADER + |name| <= BLOCK && !Takes(b, off, |name|)
    ensures HasSlot(b, off, name) == HasSlot(b, off + RecLen(b, off), name)
  {
    hide RecInode, RecLen, NameLen, Tiled, Footprint, Needed, Slack, Takes;
    SlotHere(b, off, name);
  }

  lemma TakesFirst(b: Block, off: nat, n: nat)
    requires HasHeader(off) && RecLen(b, off) != 0 && Takes(b, off, n)
    ensures FirstTaking(b, off, n, 0) && Records(b, off)[..1] == [off] && Records(b, off)[0] == off
  {
    hide RecLen, Takes;
  }

  /** One of the records from off on has room for n bytes. */
  ghost predicate HasRoom(b: Block, off: nat, n: nat) {
    exists i :: 0 <= i < |Records(b, off)| && Takes(b, Records(b, off)[i], n)
  }

  /** A tiled block has a slot exactly when one of its records has room. */
  lemma {:induction false} HasSlotIff(b: Block, off: nat, name: seq<byte>)
    requires off <= BLOCK && Tiled(b, off) && HEADER + |name| <= BLOCK
    ensures HasSlot(b, off, name) <==> HasRoom(b, off, |name|)
    decreases BLOCK - off
  {
    hide RecInode, RecLen, NameLen, Tiled, Footprint, Needed, Slack, Takes, Records, HasSlot;
    if off == BLOCK {
      NoRecords(b, off, name);
    } else {
      TiledHeader(b, off);
      SlotHere(b, off, name);
      RecordStep(b, off);
      var rs, rest := Records(b, off), Records(b, off + RecLen(b, off));
      if Takes(b, off, |name|) {
        SlotFound(b, off, name);
        assert Takes(b, rs[0], |name|);
      } else {
        SlotGoesOn(b, off, name);
        HasSlotIff(b, off + RecLen(b, off), name);
        if HasSlot(b, off, name) {
          var i :| 0 <= i < |rest| && Takes(b, rest[i], |name|);
          assert rs[i + 1] == rest[i];
        }
        if i :| 0 <= i < |rs| && Takes(b, rs[i], |name|) { assert rs[i] == rest[i - 1]; }
      }
    }
  }

  lemma SlotFound(b: Block, off: nat, name: seq<byte>)
    requires Tiled(b, off) && HasHeader(off) && HEADER + |name| <= BLOCK && Takes(b, off, |name|)
    ensures HasSlot(b, off, name)
  {
    hide RecInode, RecLen, NameLen, Tiled, Footprint, Needed, Slack, Takes;
    SlotHere(b, off, name);
  }

  lemma NoRecords(b: Block, off: nat, name: seq<byte>)
    requires off >= BLOCK
    ensures Records(b, off) == [] && !HasSlot(b, off, name)
  {
  }

  lemma RecordStep(b: Block, off: nat)
    requires HasHeader(off) && RecLen(b, off) != 0
    ensures Records(b, off) == [off] + Records(b, off + RecLen(b, off))
  {
    hide RecLen;
  }

  lemma TiledHeader(b: Block, off: nat)
    requires Tiled(b, off) && off < BLOCK
    ensures HasHeader(off)
  {
  }

  /** A free record that is long enough is reused whole. */
  ghost predicate Reused(b: Block, off: nat, n: nat) {
    HasHeader(off) && RecInode(b, off) == 0 && 8 + n <= RecLen(b, off)
  }

  lemma ReuseIff(b: Block, off: nat, name: seq<byte>)
    requires Tiled(b, off) && HasHeader(off) && HEADER + |name| <= BLOCK
    ensures Reused(b, off, |name|) <==> RecInode(b, off) == 0 && RecLen(b, off) >= Needed(|name|)
  {
    hide RecInode, RecLen, NameLen, Tiled, Footprint;
    TiledHead(b, off);
    RoundUp(RecLen(b, off), |name|);
  }

  // ---- where the new record stands ----

  lemma {:induction false} SameRecords(a: Block, b: Block, off: nat)
    requires off <= BLOCK && a[off..] == b[off..]
    ensures Records(a, off) == Records(b, off)
    decreases BLOCK - off
  {
    hide RecInode, RecLen, NameLen, RecName, RecKind;
    if HasHeader(off) {
      SameHeader(a, b, off);
      var len := RecLen(a, off);
      if 0 < len <= BLOCK - off {
        TailFrom(a, b, off, off + len);
        SameRecords(a, b, off + len);
      }
    }
  }

  lemma ReuseRecords(b: Block, off: nat, child: nat, name: seq<byte>, kind: byte)
    requires Tiled(b, off) && HasHeader(off) && RecLen(b, off) != 0 && child < 0x1_0000_0000
    requires Footprint(|name|) <= RecLen(b, off)
    ensures Records(PutRecord(b, off, child, RecLen(b, off), name, kind), off) == Records(b, off)
  {
    hide PutRecord, RecInode, RecLen, NameLen, RecName, RecKind, Footprint, Tiled, Records;
    var len := RecLen(b, off);
    var r := PutRecord(b, off, child, len, name, kind);
    TiledHead(b, off);
    ReadPutRecord(b, off, child, len, name, kind);
    TailFrom(b, r, off + HEADER + |name|, off + len);
    SameRecords(b, r, off + len);
    RecordStep(b, off);
    RecordStep(r, off);
  }

  lemma SplitRecords(b: Block, off: nat, child: nat, name: seq<byte>, kind: byte)
    requires Tiled(b, off) && HasHeader(off) && RecLen(b, off) != 0 && child < 0x1_0000_0000
    requires Footprint(NameLen(b, off)) + Footprint(|name|) <= RecLen(b, off)
    ensures var actual := Footprint(NameLen(b, off));
      && HasHeader(off + actual)
      && Records(PutRecord(PutRecLen(b, off, actual), off + actual, child, RecLen(b, off) - actual, name, kind), off)
         == [off, off + actual] + Records(b, off + RecLen(b, off))
  {
    hide PutRecord, PutRecLen, RecInode, RecLen, NameLen, RecName, RecKind, Footprint, Tiled, Records;
    TiledHead(b, off);
    var len, actual := RecLen(b, off), Footprint(NameLen(b, off));
    var next := off + actual;
    var c := PutRecLen(b, off, actual);
    var r := PutRecord(c, next, child, len - actual, name, kind);
    ReadPutRecLen(b, off, actual);
    ReadPutRecord(c, next, child, len - actual, name, kind);
    TailFrom(b, c, off + HEADER, off + len);
    TailFrom(c, r, next + HEADER + |name|, off + len);
    KeepsPrefixRecord(c, r, off, next);
    SameRecords(b, r, off + len);
    RecordStep(r, off);
    RecordStep(r, next);
  }

  /** The records after an insertion: the same ones where a free record was reused, else one more,
      which starts right behind the header and name of the first record with room. */
  ghost predicate RecordAdded(b: Block, r: Block, off: nat, n: nat, i: nat)
    requires i < |Records(b, off)|
  {
    var rs := Records(b, off);
    Records(r, off) ==
      if Reused(b, rs[i], n) || !HasHeader(rs[i]) then rs else rs[..i + 1] + [rs[i] + Footprint(NameLen(b, rs[i]))] + rs[i + 1..]
  }

  lemma AddedBehind(b: Block, r: Block, off: nat, n: nat, i: nat)
    requires HasHeader(off) && RecLen(b, off) != 0 && RecLen(r, off) == RecLen(b, off)
    requires i < |Records(b, off + RecLen(b, off))| && RecordAdded(b, r, off + RecLen(b, off), n, i)
    ensures i + 1 < |Records(b, off)| && RecordAdded(b, r, off, n, i + 1)
  {
    hide RecLen, NameLen, Footprint, Records, Reused;
    RecordStep(b, off);
    RecordStep(r, off);
  }

  /** In a tiled block the first record with room gives it, and the records are as RecordAdded says. */
  lemma {:induction false} PlacedRecords(b: Block, off: nat, child: nat, name: seq<byte>, kind: byte) returns (i: nat)
    requires off <= BLOCK && Tiled(b, off) && 0 < child < 0x1_0000_0000 && HEADER + |name| <= BLOCK
    requires Place(b, off, child, name, kind).Some?
    ensures FirstTaking(b, off, |name|, i) && i < |Records(b, off)|
    ensures RecordAdded(b, Place(b, off, child, name, kind).value, off, |name|, i)
    decreases BLOCK - off
  {
    hide RecInode, RecLen, NameLen, RecName, RecKind, PutRecord, PutRecLen, Walk, Footprint, Needed, HeadEntries, Place, Slot, Stored, Tiled,
      Records, Takes, Reused, RecordAdded, Slack, Inserted;
    PlaceLive(b, off, child, name, kind);
    TiledHead(b, off);
    PlaceStep(b, off, child, name, kind);
    SlotHere(b, off, name);
    var r, len := Place(b, off, child, name, kind).value, RecLen(b, off);
    if Takes(b, off, |name|) {
      i := 0;
      TakesFirst(b, off, |name|);
      PlacedHere(b, off, child, name, kind);
    } else {
      i := PlacedRecords(b, off + len, child, name, kind);
      FirstTakingStep(b, off, |name|, i);
      PlaceKeepsBefore(b, off + len, child, name, kind);
      KeepsPrefixRecord(b, r, off, off + len);
      AddedBehind(b, r, off, |name|, i);
      i := i + 1;
    }
  }

  lemma PlaceKeepsBefore(b: Block, off: nat, child: nat, name: seq<byte>, kind: byte)
    requires off <= BLOCK && Tiled(b, off) && 0 < child < 0x1_0000_0000 && HEADER + |name| <= BLOCK
    requires Place(b, off, child, name, kind).Some?
    ensures Place(b, off, child, name, kind).value[..off] == b[..off]
  {
    hide Place, Tiled, Stored, Walk, Slot;
    var k := PlaceInserts(b, off, child, name, kind);
  }

  lemma PlacedHere(b: Block, off: nat, child: nat, name: seq<byte>, kind: byte)
    requires Tiled(b, off) && HasHeader(off) && RecLen(b, off) != 0 && child < 0x1_0000_0000 && HEADER + |name| <= BLOCK
    requires Takes(b, off, |name|) && Place(b, off, child, name, kind).Some? && |Records(b, off)| > 0
    ensures RecordAdded(b, Place(b, off, child, name, kind).value, off, |name|, 0)
  {
    hide RecInode, RecLen, NameLen, PutRecord, PutRecLen, Footprint, Place, Tiled, Records, Takes, Reused;
    TiledHead(b, off);
    PlaceStep(b, off, child, name, kind);
    SlotHere(b, off, name);
    ReuseIff(b, off, name);
    RecordStep(b, off);
    var rs := Records(b, off);
    assert rs[1..] == Records(b, off + RecLen(b, off)) && rs[..1] == [off];
    if Reused(b, off, |name|) { ReuseRecords(b, off, child, name, kind); } else { SplitRecords(b, off, child, name, kind); }
  }

  /** How many of the records are live. */
  ghost function CountLive(b: Block, offs: seq<nat>): nat {
    if offs == [] then 0 else (if HasHeader(offs[0]) && RecInode(b, offs[0]) != 0 then 1 else 0) + CountLive(b, offs[1..])
  }

  lemma CountLiveCons(b: Block, off: nat, offs: seq<nat>)
    ensures CountLive(b, [off] + offs) == CountLive(b, [off]) + CountLive(b, offs)
  {
    hide RecInode;
    assert ([off] + offs)[1..] == offs && [off][1..] == [];
    assert CountLive(b, []) == 0;
  }

  lemma LiveHead(b: Block, off: nat)
    requires HasHeader(off)
    ensures CountLive(b, [off]) == |HeadEntries(b, off)|
  {
    hide RecInode;
    assert [off][1..] == [] && CountLive(b, []) == 0;
  }

  // ---- what insertion does to any block ----

  /** The header is stored whole, whatever part of the name falls past the block end. */
  lemma PutHeader(b: Block, off: nat, ino: nat, recLen: nat, name: seq<byte>, kind: byte)
    requires HasHeader(off) && ino < 0x1_0000_0000
    ensures var r := PutRecord(b, off, ino, recLen, name, kind); RecInode(r, off) == ino && r[..off] == b[..off]
  {
    hide FromLE, ToLE;
    PowValues();
    FromToLE(ino, 4);
    var r := PutRecord(b, off, ino, recLen, name, kind);
    var chunk := Header(ino, recLen, |name| % 256, kind) + name[..Min(|name|, BLOCK - off - HEADER)];
    assert r[off..off + |chunk|] == chunk;
    assert r[off..off + 4] == r[off..off + |chunk|][..4] == ToLE(ino, 4);
  }

  lemma RecLenBytes(b: Block, off: nat)
    requires HasHeader(off)
    ensures var lo: int, hi: int := b[off + 4], b[off + 5]; RecLen(b, off) == lo + 256 * hi
  {
    var s := b[off + 4..off + 6];
    assert s[0] == b[off + 4] && s[1..][0] == b[off + 5] && s[1..][1..] == [];
    assert FromLE(s[1..][1..]) == 0;
    assert FromLE(s[1..]) == s[1..][0] + 256 * FromLE(s[1..][1..]);
    assert FromLE(s) == s[0] + 256 * FromLE(s[1..]);
  }

  ghost predicate ZeroFrom(b: Block, v: nat) {
    forall i :: v <= i < BLOCK ==> b[i] == 0
  }

  /** A record with a length reaches below the zero bytes. */
  lemma LiveBelow(b: Block, off: nat, v: nat)
    requires HasHeader(off) && RecLen(b, off) != 0 && ZeroFrom(b, v)
    ensures off + 4 < v && (off + 5 < v || (RecLen(b, off) < 256 && NameLen(b, off) == 0))
  {
    hide RecLen;
    RecLenBytes(b, off);
  }

  lemma ReuseChanges(b: Block, r: Block, off: nat, v: nat) returns (i: nat)
    requires HasHeader(off) && RecInode(b, off) != RecInode(r, off) && off + 4 < v
    ensures i < BLOCK && i < v && r[i] != b[i]
  {
    hide FromLE;
    assert r[off..off + 4] != b[off..off + 4];
    i := if r[off] != b[off] then off
         else if r[off + 1] != b[off + 1] then off + 1
         else if r[off + 2] != b[off + 2] then off + 2 else off + 3;
  }

  lemma SplitChanges(b: Block, r: Block, off: nat, v: nat) returns (i: nat)
    requires HasHeader(off) && RecLen(b, off) != RecLen(r, off)
    requires off + 5 < v || (off + 4 < v && RecLen(b, off) < 256 && RecLen(r, off) < 256)
    ensures i < BLOCK && i < v && r[i] != b[i]
  {
    hide RecLen;
    RecLenBytes(b, off);
    RecLenBytes(r, off);
    i := if r[off + 4] != b[off + 4] then off + 4 else off + 5;
  }

  lemma SplitRecLen(b: Block, off: nat, child: nat, len: nat, name: seq<byte>, kind: byte)
    requires HasHeader(off) && HasHeader(off + Footprint(NameLen(b, off))) && child < 0x1_0000_0000
    ensures var actual := Footprint(NameLen(b, off));
      RecLen(PutRecord(PutRecLen(b, off, actual), off + actual, child, len, name, kind), off) == actual
  {
    hide PutRecord, PutRecLen, RecInode, RecName, RecKind, FromLE, Footprint, NameLen;
    var actual := Footprint(NameLen(b, off));
    var c := PutRecLen(b, off, actual);
    var r := PutRecord(c, off + actual, child, len, name, kind);
    ReadPutRecLen(b, off, actual);
    PutHeader(c, off + actual, child, len, name, kind);
    SlicePrefix(c, r, off + 4, off + 6, off + actual);
  }

  lemma SlicePrefix(c: Block, r: Block, i: nat, j: nat, n: nat)
    requires i <= j <= n <= BLOCK && r[..n] == c[..n]
    ensures r[i..j] == c[i..j]
  {
    forall k | i <= k < j ensures r[k] == c[k] { assert r[k] == r[..n][k] && c[k] == c[..n][k]; }
  }

  lemma SlackDiffers(len: nat, actual: nat)
    requires len < 0x1_0000 && Slack(len, actual) > 0
    ensures len != actual
  {
  }

  /** A block that is zero from byte v on cannot take a record without changing a byte below v. */
  lemma {:induction false} PlaceChanges(b: Block, off: nat, child: nat, name: seq<byte>, kind: byte, v: nat) returns (i: nat)
    requires ZeroFrom(b, v) && 0 < child < 0x1_0000_0000 && HEADER + |name| <= BLOCK
    requires Place(b, off, child, name, kind).Some?
    ensures i < BLOCK && i < v && Place(b, off, child, name, kind).value[i] != b[i]
    decreases BLOCK - off
  {
    hide RecInode, RecLen, NameLen, PutRecord, PutRecLen, Footprint, Needed, Slack, ZeroFrom;
    var r := Place(b, off, child, name, kind).value;
    var len, needed, actual := RecLen(b, off), Needed(|name|), Footprint(NameLen(b, off));
    LiveBelow(b, off, v);
    if RecInode(b, off) == 0 && len >= needed {
      PutHeader(b, off, child, len, name, kind);
      i := ReuseChanges(b, r, off, v);
    } else if Slack(len, actual) >= needed && HasHeader(off + actual) {
      SplitRecLen(b, off, child, Slack(len, actual), name, kind);
      RecLenBytes(b, off);
      SlackDiffers(len, actual);
      i := SplitChanges(b, r, off, v);
    } else {
      i := PlaceChanges(b, off + len, child, name, kind, v);
    }
  }

  lemma FreshBlockTiled(child: nat, name: seq<byte>, kind: byte)
    requires HEADER + |name| <= BLOCK && 0 < child < 0x1_0000_0000
    ensures Tiled(FreshBlock(child, name, kind), 0)
    ensures Walk(FreshBlock(child, name, kind), 0) == [Stored(child, name, kind)]
  {
    ReadPutRecord(Zeros(BLOCK), 0, child, BLOCK, name, kind);
    var b := FreshBlock(child, name, kind);
    assert Tiled(b, BLOCK) && Walk(b, BLOCK) == [];
  }

  /** The offset at which a record walk stops. */
  function WalkStop(b: Block, off: nat): nat
    decreases BLOCK - off
  {
    if !HasHeader(off) || RecLen(b, off) == 0 then off else WalkStop(b, off + RecLen(b, off))
  }

  /** In a tiled block every record walk ends exactly at the block end. */
  lemma {:induction false} TiledWalkEnds(b: Block, off: nat)
    requires Tiled(b, off)
    ensures WalkStop(b, off) == BLOCK
    decreases BLOCK - off
  {
    hide RecLen, NameLen;
    if off != BLOCK { TiledWalkEnds(b, off + RecLen(b, off)); }
  }
}
