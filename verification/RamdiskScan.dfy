/** src/boot/efi_loader.c: the scan of EFI filesystems into a growing list of files with
    pairwise distinct names. */
module RamdiskScan {
  import opened Bytes
  import opened Bitmap
  import opened Dirent

  /** A CHAR16 of a terminated string; buffers also hold the terminator 0. */
  type char16 = c: int | 0 < c < 0x1_0000 witness 1
  type unit16 = c: int | 0 <= c < 0x1_0000
  type Wide = seq<char16>

  const BACKSLASH: char16 := 92
  const PATH_CAP := 260
  const NAME_CAP := 128
  const MAX_DEPTH := 16

  // ---- paths and names ----

  /** The child path: base, a separator unless base is one character or ends in one, name. */
  function Join(base: Wide, name: Wide): Wide {
    (if base == [] then [BACKSLASH]
     else if |base| > 1 && base[|base| - 1] != BACKSLASH then base + [BACKSLASH]
     else base) + name
  }

  /** `ramdisk_path_append`: fails unless path and terminator fit the buffer. */
  function PathAppend(base: Wide, name: Wide): (r: Option<Wide>)
    ensures r.Some? ==> |r.value| + 1 <= PATH_CAP
  {
    if |Join(base, name)| < PATH_CAP then Some(Join(base, name)) else None
  }

  function Strip(path: Wide): (r: Wide)
    ensures r == [] || (r[0] != BACKSLASH && r[0] != 47)
  {
    if path != [] && (path[0] == BACKSLASH || path[0] == 47) then Strip(path[1..]) else path
  }

  function UnixChar(c: char16): (b: byte)
    ensures b != 0
  {
    if c == BACKSLASH then 47 else if c < 128 then c else 95
  }

  /** `ramdisk_path_to_unix_name`: at most 127 characters. */
  function UnixName(path: Wide): (r: seq<byte>)
    ensures |r| < NAME_CAP && forall i :: 0 <= i < |r| ==> r[i] != 0
  {
    var p := Strip(path);
    seq(Min(|p|, NAME_CAP - 1), i requires 0 <= i < Min(|p|, NAME_CAP - 1) => UnixChar(p[i]))
  }

  /** Slashes of a stored name read as path separators again. */
  function FromUnix(name: seq<byte>): seq<int> {
    seq(|name|, i requires 0 <= i < |name| => if name[i] == 47 then BACKSLASH else name[i])
  }

  /** An ASCII path without '/' that fits is stored without loss. */
  lemma UnixNameRecovers(path: Wide)
    requires |Strip(path)| < NAME_CAP && forall i :: 0 <= i < |Strip(path)| ==> Strip(path)[i] < 128 && Strip(path)[i] != 47
    ensures FromUnix(UnixName(path)) == Strip(path)
  {
    hide Strip;
    var p, n := Strip(path), UnixName(path);
    assert |n| == |p| && forall i :: 0 <= i < |p| ==> n[i] == UnixChar(p[i]);
  }

  lemma {:induction false} StripAppend(path: Wide, tail: Wide)
    requires Strip(path) != []
    ensures Strip(path + tail) == Strip(path) + tail
  {
    if path[0] == BACKSLASH || path[0] == 47 {
      assert (path + tail)[1..] == path[1..] + tail;
      StripAppend(path[1..], tail);
    }
  }

  /** A child is stored as its directory's name, a slash, and its own name. */
  lemma JoinIsChild(dir: Wide, name: Wide)
    requires |dir| > 1 && dir[|dir| - 1] != BACKSLASH && Strip(dir) != []
    requires |Strip(dir)| + 1 + |name| < NAME_CAP
    ensures UnixName(Join(dir, name)) == UnixName(dir) + [47] + seq(|name|, i requires 0 <= i < |name| => UnixChar(name[i]))
  {
    hide Strip, UnixChar;
    StripAppend(dir, [BACKSLASH] + name);
    assert Join(dir, name) == dir + ([BACKSLASH] + name);
    var p := Strip(dir);
    assert Strip(Join(dir, name)) == p + [BACKSLASH] + name;
    SeparatorIsSlash();
  }

  /** Only leading separators, of either kind, are stripped. */
  lemma {:induction false} StripIff(path: Wide)
    ensures var n := |path| - |Strip(path)|;
      0 <= n && Strip(path) == path[n..] && (forall i :: 0 <= i < n ==> path[i] == 92 || path[i] == 47)
  {
    if path != [] && (path[0] == BACKSLASH || path[0] == 47) { StripIff(path[1..]); }
  }

  /** Each stored character: a slash for a backslash, ASCII as it is, an underscore otherwise; and
      at most 127 of them. */
  lemma UnixNameAt(path: Wide, i: nat)
    ensures |UnixName(path)| == (if |Strip(path)| <= 127 then |Strip(path)| else 127)
    ensures i < |UnixName(path)| ==>
      UnixName(path)[i] == if Strip(path)[i] == 92 then 47 else if Strip(path)[i] < 128 then Strip(path)[i] else 95
  {
    hide Strip;
  }

  /** A child path is refused exactly when it does not fit 260 elements with its terminator. */
  lemma PathAppendIff(dir: Wide, name: Wide)
    ensures |dir| > 1 && dir[|dir| - 1] != BACKSLASH ==>
      (PathAppend(dir, name) == if |dir| + |name| <= 258 then Some(dir + [92] + name) else None)
    ensures PathAppend([92], name) == if |name| <= 258 then Some([92] + name) else None
    ensures PathAppend([], name) == if |name| <= 258 then Some([92] + name) else None
  {
  }

  lemma SeparatorIsSlash()
    ensures UnixChar(BACKSLASH) == 47
  {
  }

  function Upper16(c: char16): char16 {
    if 97 <= c <= 122 then c - 32 else c
  }

  function UpperChar(c: char): int {
    if 'a' <= c <= 'z' then c as int - 32 else c as int
  }

  predicate HasSuffix(name: Wide, suffix: string) {
    |suffix| <= |name| && forall i :: 0 <= i < |suffix| ==> Upper16(name[|name| - |suffix| + i]) == UpperChar(suffix[i])
  }

  const SUFFIXES: seq<string> :=
    [".FRY", ".TOT", ".TXT", ".ICON", ".ucode", ".ttf", ".LXE", ".so", ".so.0", ".so.1", ".so.2", ".so.6", ".RUN"]

  predicate ShouldLoad(name: Wide) {
    exists k :: 0 <= k < |SUFFIXES| && HasSuffix(name, SUFFIXES[k])
  }

  function Lower(c: char16): char16 {
    if 65 <= c <= 90 then c + 32 else c
  }

  /** A file is a payload exactly when its name ends in one of the suffixes, in any mixture of
      cases. */
  lemma ShouldLoadIff(name: Wide)
    ensures ShouldLoad(name) <==> exists k: nat :: k < 13 && EndsIn(name, k)
  {
    forall k: nat | k < 13 ensures HasSuffix(name, SUFFIXES[k]) <==> EndsIn(name, k) { SuffixIff(name, k); }
    if ShouldLoad(name) {
      var k: nat :| k < |SUFFIXES| && HasSuffix(name, SUFFIXES[k]);
      assert EndsIn(name, k);
    }
    if k: nat :| k < 13 && EndsIn(name, k) { assert HasSuffix(name, SUFFIXES[k]); }
  }

  ghost predicate EndsIn(name: Wide, k: nat)
    requires k < 13
  {
    |SuffixText(k)| <= |name| && Spells(name[|name| - |SuffixText(k)|..], k)
  }

  lemma SuffixIff(name: Wide, k: nat)
    requires k < 13
    ensures HasSuffix(name, SUFFIXES[k]) <==> EndsIn(name, k)
  {
    hide SUFFIXES, SuffixText;
    SuffixTable(k);
    var suffix, text := SUFFIXES[k], SuffixText(k);
    if |suffix| <= |name| {
      var tail := name[|name| - |suffix|..];
      forall i | 0 <= i < |suffix| ensures Upper16(name[|name| - |suffix| + i]) == UpperChar(suffix[i]) <==> Lower(tail[i]) == text[i] as int {
        assert tail[i] == name[|name| - |suffix| + i];
        SameCase(tail[i], suffix[i]);
      }
      if HasSuffix(name, suffix) {
        forall i | 0 <= i < |tail| ensures Lower(tail[i]) == text[i] as int {
          assert Upper16(name[|name| - |suffix| + i]) == UpperChar(suffix[i]);
        }
      }
      if Spells(tail, k) {
        forall i | 0 <= i < |suffix| ensures Upper16(name[|name| - |suffix| + i]) == UpperChar(suffix[i]) {
          assert Lower(tail[i]) == text[i] as int;
        }
      }
    }
  }

  lemma SameCase(c: char16, x: char)
    ensures Upper16(c) == UpperChar(x) <==> Lower(c) == LowerChar(x) as int
  {
  }

  /** Suffix k in lower case. */
  function SuffixText(k: nat): string
    requires k < 13
  {
    [".fry", ".tot", ".txt", ".icon", ".ucode", ".ttf", ".lxe", ".so", ".so.0", ".so.1", ".so.2", ".so.6", ".run"][k]
  }

  ghost predicate Spells(tail: Wide, k: nat)
    requires k < 13
  {
    |tail| == |SuffixText(k)| && forall i :: 0 <= i < |tail| ==> Lower(tail[i]) == SuffixText(k)[i] as int
  }

  lemma SuffixTable(k: nat)
    requires k < 13
    ensures |SUFFIXES| == 13 && |SUFFIXES[k]| == |SuffixText(k)|
    ensures forall i :: 0 <= i < |SUFFIXES[k]| ==> LowerChar(SUFFIXES[k][i]) == SuffixText(k)[i]
  {
  }

  function LowerChar(c: char): char {
    if 'A' <= c <= 'Z' then (c as int + 32) as char else c
  }

  predicate IsDots(name: Wide) {
    name == [46] || name == [46, 46]
  }

  // ---- firmware ----

  datatype Info = Info(name: Wide, isDir: bool)

  /** A filesystem as the firmware shows it: directory listings and file contents by path.
      Nothing is assumed about its shape; listings may even be cyclic. */
  datatype Vol = Vol(dirs: map<Wide, seq<Info>>, files: map<Wide, seq<byte>>)

  /** Whether the k-th request to grow the list is granted. */
  type Grants = nat -> bool

  // ---- the list ----

  datatype ScanFile = ScanFile(name: seq<byte>, data: seq<byte>)

  datatype State = State(files: seq<ScanFile>, cap: nat, total: nat, asked: nat)

  function SumSizes(fs: seq<ScanFile>): nat {
    if fs == [] then 0 else SumSizes(fs[..|fs| - 1]) + |fs[|fs| - 1].data|
  }

  predicate Contains(fs: seq<ScanFile>, name: seq<byte>) {
    exists i :: 0 <= i < |fs| && NameEq(fs[i].name, name)
  }

  function Doubled(cap: nat): nat {
    if cap == 0 then 16 else 2 * cap
  }

  function Append(s: State, f: ScanFile): State {
    s.(files := s.files + [f], total := s.total + |f.data|)
  }

  /** `ramdisk_scan_add`. */
  function Add(g: Grants, s: State, name: seq<byte>, data: seq<byte>): State {
    var f := ScanFile(name[..Min(|name|, NAME_CAP - 1)], data);
    if data == [] then s
    else if |s.files| != s.cap then Append(s, f)
    else if !g(s.asked) then s.(asked := s.asked + 1)
    else Append(s.(cap := Doubled(s.cap), asked := s.asked + 1), f)
  }

  /** `ramdisk_scan_try_load`. */
  function TryLoad(g: Grants, vol: Vol, s: State, path: Wide): State {
    var name := UnixName(path);
    if name == [] || Contains(s.files, name) || path !in vol.files then s
    else Add(g, s, name, vol.files[path])
  }

  /** `ramdisk_scan_dir` at a path and depth. */
  function ScanDir(g: Grants, vol: Vol, s: State, path: Wide, recursive: bool, depth: nat): State
    decreases if depth <= MAX_DEPTH then MAX_DEPTH + 1 - depth else 0, 1, 0
  {
    if depth > MAX_DEPTH || path !in vol.dirs then s
    else ScanList(g, vol, s, path, vol.dirs[path], recursive, depth)
  }

  function ScanList(g: Grants, vol: Vol, s: State, path: Wide, infos: seq<Info>, recursive: bool, depth: nat): State
    requires depth <= MAX_DEPTH
    decreases MAX_DEPTH + 1 - depth, 0, |infos|
  {
    if infos == [] then s
    else ScanList(g, vol, ScanOne(g, vol, s, path, infos[0], recursive, depth), path, infos[1..], recursive, depth)
  }

  function ScanOne(g: Grants, vol: Vol, s: State, path: Wide, info: Info, recursive: bool, depth: nat): State
    requires depth <= MAX_DEPTH
    decreases MAX_DEPTH + 1 - depth, 0, 0
  {
    if info.name == [] || IsDots(info.name) then s
    else
      match PathAppend(path, info.name)
      case None => s
      case Some(child) =>
        if info.isDir then (if recursive then ScanDir(g, vol, s, child, recursive, depth + 1) else s)
        else if ShouldLoad(info.name) then TryLoad(g, vol, s, child)
        else s
  }

  function W(s: string): Wide
    requires forall i :: 0 <= i < |s| ==> '\0' < s[i] < '\U{10000}'
  {
    seq(|s|, i requires 0 <= i < |s| => s[i] as int)
  }

  /** The directories scanned on every filesystem, and whether recursively. */
  const PLACES: seq<(Wide, bool)> :=
    [(W("\\"), false), (W("\\system"), true), (W("\\apps"), true), (W("\\icons"), true),
     (W("\\firmware"), true), (W("\\fonts"), true), (W("\\"), true)]

  function ScanPlaces(g: Grants, vol: Vol, s: State, k: nat): State
    requires k <= |PLACES|
  {
    if k == 0 then s
    else ScanDir(g, vol, ScanPlaces(g, vol, s, k - 1), PLACES[k - 1].0, PLACES[k - 1].1, 0)
  }

  function ScanVolumes(g: Grants, vols: seq<Vol>): State {
    if vols == [] then State([], 0, 0, 0)
    else ScanPlaces(g, vols[|vols| - 1], ScanVolumes(g, vols[..|vols| - 1]), |PLACES|)
  }

  // ---- the invariant ----

  ghost predicate Distinct(fs: seq<ScanFile>) {
    forall i, j :: 0 <= i < j < |fs| ==> !NameEq(fs[i].name, fs[j].name)
  }

  /** An entry is the renamed content of some file of some scanned volume. */
  ghost predicate FromVolume(vol: Vol, f: ScanFile) {
    exists p :: p in vol.files && f == ScanFile(UnixName(p), vol.files[p])
  }

  /** A terminated, non-empty name that fits its buffer, and some data. */
  ghost predicate Proper(f: ScanFile) {
    0 < |f.name| < NAME_CAP && f.data != [] && forall i :: 0 <= i < |f.name| ==> f.name[i] != 0
  }

  /** Zero, or 16 doubled any number of times. */
  ghost predicate Doubling(cap: nat) {
    cap == 0 || exists j: nat :: cap == 16 * Pow2(j)
  }

  lemma DoublingStep(cap: nat)
    requires Doubling(cap)
    ensures Doubling(Doubled(cap)) && Doubled(cap) > cap
  {
    if cap == 0 {
      assert 16 == 16 * Pow2(0);
    } else {
      var j: nat :| cap == 16 * Pow2(j);
      PositivePow2(j);
      assert Doubled(cap) == 16 * Pow2(j + 1);
    }
  }

  lemma {:induction false} PositivePow2(j: nat)
    ensures Pow2(j) > 0
  {
    if j > 0 { PositivePow2(j - 1); }
  }

  ghost predicate Good(s: State) {
    && |s.files| <= s.cap && Doubling(s.cap)
    && Distinct(s.files)
    && s.total == SumSizes(s.files)
    && forall i :: 0 <= i < |s.files| ==> Proper(s.files[i])
  }

  /** t is s with entries of vol appended. */
  ghost predicate Extends(vol: Vol, s: State, t: State) {
    && s.files <= t.files
    && forall i :: |s.files| <= i < |t.files| ==> FromVolume(vol, t.files[i])
  }

  lemma ExtendsTrans(vol: Vol, s: State, t: State, u: State)
    requires Extends(vol, s, t) && Extends(vol, t, u)
    ensures Extends(vol, s, u)
  {
    hide FromVolume;
    forall i | |s.files| <= i < |u.files| ensures FromVolume(vol, u.files[i]) {
      if i < |t.files| { assert u.files[i] == t.files[i]; }
    }
  }

  lemma AppendGood(s: State, f: ScanFile)
    requires Good(s) && |s.files| < s.cap && !Contains(s.files, f.name)
    requires Proper(f)
    ensures Good(Append(s, f))
  {
    hide Fold;
    var t := Append(s, f);
    assert t.files[..|s.files|] == s.files;
    forall i, j | 0 <= i < j < |t.files| ensures !NameEq(t.files[i].name, t.files[j].name) {
      assert t.files[i] == s.files[i];
    }
  }

  lemma TryLoadGood(g: Grants, vol: Vol, s: State, path: Wide)
    requires Good(s)
    ensures Good(TryLoad(g, vol, s, path)) && Extends(vol, s, TryLoad(g, vol, s, path))
  {
    hide UnixName, Contains, SumSizes, Distinct, Doubling;
    var t, name := TryLoad(g, vol, s, path), UnixName(path);
    DoublingStep(s.cap);
    if |t.files| != |s.files| {
      var f := ScanFile(name, vol.files[path]);
      assert name[..|name|] == name;
      var s' := if |s.files| != s.cap then s else s.(cap := Doubled(s.cap), asked := s.asked + 1);
      assert t == Append(s', f);
      AppendGood(s', f);
      assert FromVolume(vol, f);
    }
  }

  lemma {:induction false} ScanDirGood(g: Grants, vol: Vol, s: State, path: Wide, recursive: bool, depth: nat)
    requires Good(s)
    ensures var t := ScanDir(g, vol, s, path, recursive, depth); Good(t) && Extends(vol, s, t)
    decreases if depth <= MAX_DEPTH then MAX_DEPTH + 1 - depth else 0, 1, 0
  {
    hide Good, FromVolume;
    if depth <= MAX_DEPTH && path in vol.dirs { ScanListGood(g, vol, s, path, vol.dirs[path], recursive, depth); }
  }

  lemma {:induction false} ScanListGood(g: Grants, vol: Vol, s: State, path: Wide, infos: seq<Info>, recursive: bool, depth: nat)
    requires Good(s) && depth <= MAX_DEPTH
    ensures var t := ScanList(g, vol, s, path, infos, recursive, depth); Good(t) && Extends(vol, s, t)
    decreases MAX_DEPTH + 1 - depth, 0, |infos|
  {
    hide Good, FromVolume, ScanOne;
    if infos != [] {
      var t := ScanOne(g, vol, s, path, infos[0], recursive, depth);
      ScanOneGood(g, vol, s, path, infos[0], recursive, depth);
      ScanListGood(g, vol, t, path, infos[1..], recursive, depth);
      ExtendsTrans(vol, s, t, ScanList(g, vol, t, path, infos[1..], recursive, depth));
    }
  }

  lemma {:induction false} ScanOneGood(g: Grants, vol: Vol, s: State, path: Wide, info: Info, recursive: bool, depth: nat)
    requires Good(s) && depth <= MAX_DEPTH
    ensures var t := ScanOne(g, vol, s, path, info, recursive, depth); Good(t) && Extends(vol, s, t)
    decreases MAX_DEPTH + 1 - depth, 0, 0
  {
    hide Good, FromVolume, TryLoad, Join, ShouldLoad;
    if info.name != [] && !IsDots(info.name) && PathAppend(path, info.name).Some? {
      var child := PathAppend(path, info.name).value;
      if info.isDir {
        if recursive { ScanDirGood(g, vol, s, child, recursive, depth + 1); }
      } else {
        TryLoadGood(g, vol, s, child);
      }
    }
  }

  lemma {:induction false} ScanPlacesGood(g: Grants, vol: Vol, s: State, k: nat)
    requires Good(s) && k <= |PLACES|
    ensures var t := ScanPlaces(g, vol, s, k); Good(t) && Extends(vol, s, t)
  {
    hide Good, FromVolume, PLACES, ScanDir;
    if k > 0 {
      ScanPlacesGood(g, vol, s, k - 1);
      var t := ScanPlaces(g, vol, s, k - 1);
      ScanDirGood(g, vol, t, PLACES[k - 1].0, PLACES[k - 1].1, 0);
      ExtendsTrans(vol, s, t, ScanPlaces(g, vol, s, k));
    }
  }

  /** For any number of volumes of any shape and any pattern of granted growth: names are
      distinct ignoring case, the count is within the capacity, the total is the sum of the
      sizes, and every entry is the content of some file of one of the volumes. */
  lemma {:induction false} ScanVolumesGood(g: Grants, vols: seq<Vol>)
    ensures Good(ScanVolumes(g, vols))
    ensures forall i :: 0 <= i < |ScanVolumes(g, vols).files| ==>
      exists v :: 0 <= v < |vols| && FromVolume(vols[v], ScanVolumes(g, vols).files[i])
  {
    hide ScanPlaces, FromVolume;
    if vols != [] {
      var init, last := vols[..|vols| - 1], vols[|vols| - 1];
      ScanVolumesGood(g, init);
      var s := ScanVolumes(g, init);
      ScanPlacesGood(g, last, s, |PLACES|);
      var t := ScanVolumes(g, vols);
      forall i | 0 <= i < |t.files| ensures exists v :: 0 <= v < |vols| && FromVolume(vols[v], t.files[i]) {
        if i < |s.files| {
          assert t.files[i] == s.files[i];
          var v :| 0 <= v < |init| && FromVolume(init[v], s.files[i]);
          assert FromVolume(vols[v], t.files[i]);
        } else {
          assert FromVolume(vols[|vols| - 1], t.files[i]);
        }
      }
    }
  }

  lemma ScannedFrom(g: Grants, vols: seq<Vol>, k: nat) returns (v: nat)
    requires k < |ScanVolumes(g, vols).files|
    ensures v < |vols| && FromVolume(vols[v], ScanVolumes(g, vols).files[k])
  {
    ScanVolumesGood(g, vols);
    v :| 0 <= v < |vols| && FromVolume(vols[v], ScanVolumes(g, vols).files[k]);
  }

  /** A directory is opened down to the sixteenth level below a scanned place, and no further. */
  lemma DepthLimit(g: Grants, vol: Vol, s: State, path: Wide, recursive: bool, depth: nat)
    ensures depth >= 17 ==> ScanDir(g, vol, s, path, recursive, depth) == s
    ensures depth <= 16 && path in vol.dirs ==>
      ScanDir(g, vol, s, path, recursive, depth) == ScanList(g, vol, s, path, vol.dirs[path], recursive, depth)
  {
    hide ScanList;
  }

  // ---- completeness ----

  /** A scan of `path` comes to the file `target`. */
  ghost predicate Reaches(vol: Vol, path: Wide, recursive: bool, depth: nat, target: Wide)
    decreases if depth <= MAX_DEPTH then MAX_DEPTH + 1 - depth else 0
  {
    && depth <= MAX_DEPTH && path in vol.dirs
    && exists i :: 0 <= i < |vol.dirs[path]| && Step(vol, path, vol.dirs[path][i], recursive, depth, target)
  }

  ghost predicate Step(vol: Vol, path: Wide, info: Info, recursive: bool, depth: nat, target: Wide)
    requires depth <= MAX_DEPTH
    decreases MAX_DEPTH + 1 - depth, 0
  {
    && info.name != [] && !IsDots(info.name) && PathAppend(path, info.name).Some?
    && if info.isDir then recursive && Reaches(vol, PathAppend(path, info.name).value, recursive, depth + 1, target)
       else ShouldLoad(info.name) && PathAppend(path, info.name).value == target
  }

  lemma KeptListed(vol: Vol, s: State, t: State, name: seq<byte>)
    requires Extends(vol, s, t) && Contains(s.files, name)
    ensures Contains(t.files, name)
  {
    hide FromVolume, Fold;
    var i :| 0 <= i < |s.files| && NameEq(s.files[i].name, name);
    assert t.files[i] == s.files[i];
  }

  /** A readable, non-empty file is listed once it has been tried, unless growth was denied. */
  lemma TryLoadLists(g: Grants, vol: Vol, s: State, path: Wide)
    requires UnixName(path) != [] && path in vol.files && vol.files[path] != []
    requires g(s.asked) || |s.files| != s.cap
    ensures Contains(TryLoad(g, vol, s, path).files, UnixName(path))
  {
    hide UnixName;
    var name, t := UnixName(path), TryLoad(g, vol, s, path);
    if !Contains(s.files, name) {
      assert name[..|name|] == name;
      assert t.files[|s.files|].name == name;
    }
  }

  lemma {:induction false} ScanDirLists(g: Grants, vol: Vol, s: State, path: Wide, recursive: bool, depth: nat, target: Wide)
    requires Good(s) && (forall k :: g(k)) && Reaches(vol, path, recursive, depth, target)
    requires UnixName(target) != [] && target in vol.files && vol.files[target] != []
    ensures Contains(ScanDir(g, vol, s, path, recursive, depth).files, UnixName(target))
    decreases if depth <= MAX_DEPTH then MAX_DEPTH + 1 - depth else 0, 1, 0
  {
    hide Good, Contains, UnixName, Step;
    var infos := vol.dirs[path];
    var i :| 0 <= i < |infos| && Step(vol, path, infos[i], recursive, depth, target);
    ScanListLists(g, vol, s, path, infos, recursive, depth, target, i);
  }

  lemma {:induction false} ScanListLists(g: Grants, vol: Vol, s: State, path: Wide, infos: seq<Info>, recursive: bool,
                                         depth: nat, target: Wide, i: nat)
    requires Good(s) && (forall k :: g(k)) && depth <= MAX_DEPTH
    requires i < |infos| && Step(vol, path, infos[i], recursive, depth, target)
    requires UnixName(target) != [] && target in vol.files && vol.files[target] != []
    ensures Contains(ScanList(g, vol, s, path, infos, recursive, depth).files, UnixName(target))
    decreases MAX_DEPTH + 1 - depth, 0, |infos|
  {
    hide Good, Contains, UnixName, Step, ScanOne, FromVolume;
    var t := ScanOne(g, vol, s, path, infos[0], recursive, depth);
    ScanOneGood(g, vol, s, path, infos[0], recursive, depth);
    if i == 0 {
      ScanOneLists(g, vol, s, path, infos[0], recursive, depth, target);
      ScanListGood(g, vol, t, path, infos[1..], recursive, depth);
      KeptListed(vol, t, ScanList(g, vol, t, path, infos[1..], recursive, depth), UnixName(target));
    } else {
      ScanListLists(g, vol, t, path, infos[1..], recursive, depth, target, i - 1);
    }
  }

  lemma {:induction false} ScanOneLists(g: Grants, vol: Vol, s: State, path: Wide, info: Info, recursive: bool, depth: nat,
                                        target: Wide)
    requires Good(s) && (forall k :: g(k)) && depth <= MAX_DEPTH && Step(vol, path, info, recursive, depth, target)
    requires UnixName(target) != [] && target in vol.files && vol.files[target] != []
    ensures Contains(ScanOne(g, vol, s, path, info, recursive, depth).files, UnixName(target))
    decreases MAX_DEPTH + 1 - depth, 0, 0
  {
    hide Good, Contains, UnixName, TryLoad, Join, ShouldLoad;
    var child := PathAppend(path, info.name).value;
    if info.isDir {
      ScanDirLists(g, vol, s, child, recursive, depth + 1, target);
    } else {
      TryLoadLists(g, vol, s, child);
    }
  }

  /** When growth is never denied, every readable, non-empty payload file that some scanned
      place of some volume leads to is listed under its name: by its own bytes, or because
      another file had that name first. */
  lemma {:induction false} PayloadListed(g: Grants, vols: seq<Vol>, v: nat, k: nat, target: Wide)
    requires v < |vols| && (forall n :: g(n)) && k < |PLACES|
    requires Reaches(vols[v], PLACES[k].0, PLACES[k].1, 0, target)
    requires UnixName(target) != [] && target in vols[v].files && vols[v].files[target] != []
    ensures Contains(ScanVolumes(g, vols).files, UnixName(target))
    decreases |vols|
  {
    hide Good, Contains, UnixName, ScanDir, ScanPlaces, Reaches, PLACES, FromVolume;
    var init, last := vols[..|vols| - 1], vols[|vols| - 1];
    var s := ScanVolumes(g, init);
    ScanVolumesGood(g, init);
    if v == |vols| - 1 {
      PlacesListed(g, last, s, |PLACES|, k, target);
    } else {
      PayloadListed(g, init, v, k, target);
      ScanPlacesGood(g, last, s, |PLACES|);
      KeptListed(last, s, ScanVolumes(g, vols), UnixName(target));
    }
  }

  lemma {:induction false} PlacesListed(g: Grants, vol: Vol, s: State, n: nat, k: nat, target: Wide)
    requires Good(s) && (forall n :: g(n)) && k < n <= |PLACES|
    requires Reaches(vol, PLACES[k].0, PLACES[k].1, 0, target)
    requires UnixName(target) != [] && target in vol.files && vol.files[target] != []
    ensures Contains(ScanPlaces(g, vol, s, n).files, UnixName(target))
    decreases n
  {
    hide Good, Contains, UnixName, ScanDir, Reaches, PLACES, FromVolume;
    var t := ScanPlaces(g, vol, s, n - 1);
    ScanPlacesGood(g, vol, s, n - 1);
    if k == n - 1 {
      ScanDirLists(g, vol, t, PLACES[k].0, PLACES[k].1, 0, target);
    } else {
      PlacesListed(g, vol, s, n - 1, k, target);
      ScanDirGood(g, vol, t, PLACES[n - 1].0, PLACES[n - 1].1, 0);
      KeptListed(vol, t, ScanPlaces(g, vol, s, n), UnixName(target));
    }
  }

  // ---- nothing else is listed ----

  /** f is the content of the file at p, under its stored name. */
  ghost predicate ContentAt(vol: Vol, p: Wide, f: ScanFile) {
    p in vol.files && f == ScanFile(UnixName(p), vol.files[p]) && f.name != [] && f.data != []
  }

  ghost predicate FromDir(vol: Vol, path: Wide, recursive: bool, depth: nat, f: ScanFile) {
    exists p :: Reaches(vol, path, recursive, depth, p) && ContentAt(vol, p, f)
  }

  ghost predicate FromStep(vol: Vol, path: Wide, info: Info, recursive: bool, depth: nat, f: ScanFile)
    requires depth <= MAX_DEPTH
  {
    exists p :: Step(vol, path, info, recursive, depth, p) && ContentAt(vol, p, f)
  }

  /** t is s with only files appended that a scan of the path comes to. */
  ghost predicate GrownFrom(vol: Vol, path: Wide, recursive: bool, depth: nat, s: State, t: State) {
    s.files <= t.files && forall i :: |s.files| <= i < |t.files| ==> FromDir(vol, path, recursive, depth, t.files[i])
  }

  lemma TryLoadOnly(g: Grants, vol: Vol, s: State, path: Wide)
    ensures var t := TryLoad(g, vol, s, path);
      s.files <= t.files && forall i :: |s.files| <= i < |t.files| ==> ContentAt(vol, path, t.files[i])
  {
    hide UnixName, Contains;
    assert UnixName(path)[..|UnixName(path)|] == UnixName(path);
  }

  lemma {:induction false} ScanDirOnly(g: Grants, vol: Vol, s: State, path: Wide, recursive: bool, depth: nat)
    ensures GrownFrom(vol, path, recursive, depth, s, ScanDir(g, vol, s, path, recursive, depth))
    decreases if depth <= MAX_DEPTH then MAX_DEPTH + 1 - depth else 0, 1, 0
  {
    hide ScanList, Step, ContentAt;
    if depth <= MAX_DEPTH && path in vol.dirs {
      var infos := vol.dirs[path];
      ScanListOnly(g, vol, s, path, infos, recursive, depth);
      var t := ScanDir(g, vol, s, path, recursive, depth);
      forall i | |s.files| <= i < |t.files| ensures FromDir(vol, path, recursive, depth, t.files[i]) {
        var k :| 0 <= k < |infos| && FromStep(vol, path, infos[k], recursive, depth, t.files[i]);
        var p :| Step(vol, path, infos[k], recursive, depth, p) && ContentAt(vol, p, t.files[i]);
        assert Reaches(vol, path, recursive, depth, p);
      }
    }
  }

  lemma {:induction false} ScanListOnly(g: Grants, vol: Vol, s: State, path: Wide, infos: seq<Info>, recursive: bool, depth: nat)
    requires depth <= MAX_DEPTH
    ensures var t := ScanList(g, vol, s, path, infos, recursive, depth);
      && s.files <= t.files
      && forall i :: |s.files| <= i < |t.files| ==>
           exists k :: 0 <= k < |infos| && FromStep(vol, path, infos[k], recursive, depth, t.files[i])
    decreases MAX_DEPTH + 1 - depth, 0, |infos|
  {
    hide ScanOne, FromStep;
    if infos != [] {
      var u := ScanOne(g, vol, s, path, infos[0], recursive, depth);
      ScanOneOnly(g, vol, s, path, infos[0], recursive, depth);
      ScanListOnly(g, vol, u, path, infos[1..], recursive, depth);
      var t := ScanList(g, vol, s, path, infos, recursive, depth);
      forall i | |s.files| <= i < |t.files|
        ensures exists k :: 0 <= k < |infos| && FromStep(vol, path, infos[k], recursive, depth, t.files[i])
      {
        if i < |u.files| {
          assert t.files[i] == u.files[i];
        } else {
          var k :| 0 <= k < |infos[1..]| && FromStep(vol, path, infos[1..][k], recursive, depth, t.files[i]);
          assert infos[k + 1] == infos[1..][k];
        }
      }
    }
  }

  lemma {:induction false} ScanOneOnly(g: Grants, vol: Vol, s: State, path: Wide, info: Info, recursive: bool, depth: nat)
    requires depth <= MAX_DEPTH
    ensures var t := ScanOne(g, vol, s, path, info, recursive, depth);
      s.files <= t.files && forall i :: |s.files| <= i < |t.files| ==> FromStep(vol, path, info, recursive, depth, t.files[i])
    decreases MAX_DEPTH + 1 - depth, 0, 0
  {
    hide TryLoad, Join, ShouldLoad, ContentAt, Reaches, ScanDir;
    if info.name != [] && !IsDots(info.name) && PathAppend(path, info.name).Some? {
      var child := PathAppend(path, info.name).value;
      var t := ScanOne(g, vol, s, path, info, recursive, depth);
      if info.isDir {
        if recursive {
          ScanDirOnly(g, vol, s, child, recursive, depth + 1);
          forall i | |s.files| <= i < |t.files| ensures FromStep(vol, path, info, recursive, depth, t.files[i]) {
            assert FromDir(vol, child, recursive, depth + 1, t.files[i]);
            var p :| Reaches(vol, child, recursive, depth + 1, p) && ContentAt(vol, p, t.files[i]);
            assert Step(vol, path, info, recursive, depth, p);
          }
        }
      } else if ShouldLoad(info.name) {
        TryLoadOnly(g, vol, s, child);
        assert Step(vol, path, info, recursive, depth, child);
      }
    }
  }

  /** f is a payload file that scanned place k of a volume leads to. */
  ghost predicate FromPlace(vol: Vol, k: nat, f: ScanFile) {
    k < |PLACES| && FromDir(vol, PLACES[k].0, PLACES[k].1, 0, f)
  }

  ghost predicate FromPlaces(vol: Vol, n: nat, f: ScanFile) {
    exists k: nat :: k < n && FromPlace(vol, k, f)
  }

  lemma {:induction false} ScanPlacesOnly(g: Grants, vol: Vol, s: State, n: nat)
    requires n <= |PLACES|
    ensures var t := ScanPlaces(g, vol, s, n);
      s.files <= t.files && forall i :: |s.files| <= i < |t.files| ==> FromPlaces(vol, n, t.files[i])
  {
    hide PLACES, ScanDir, FromDir;
    if n > 0 {
      var u, t := ScanPlaces(g, vol, s, n - 1), ScanPlaces(g, vol, s, n);
      ScanPlacesOnly(g, vol, s, n - 1);
      ScanDirOnly(g, vol, u, PLACES[n - 1].0, PLACES[n - 1].1, 0);
      forall i | |s.files| <= i < |t.files| ensures FromPlaces(vol, n, t.files[i]) {
        if i < |u.files| {
          assert t.files[i] == u.files[i];
          assert FromPlaces(vol, n - 1, u.files[i]);
        } else {
          assert FromPlace(vol, n - 1, t.files[i]);
        }
      }
    }
  }

  ghost predicate FromVolumes(vols: seq<Vol>, f: ScanFile) {
    exists v: nat :: v < |vols| && FromPlaces(vols[v], |PLACES|, f)
  }

  /** Only payload files are listed, and only those that a scanned place of one of the volumes
      leads to; whatever the allocator grants. */
  lemma {:induction false} OnlyPayload(g: Grants, vols: seq<Vol>)
    ensures forall i :: 0 <= i < |ScanVolumes(g, vols).files| ==> FromVolumes(vols, ScanVolumes(g, vols).files[i])
    decreases |vols|
  {
    hide ScanPlaces, FromPlaces;
    if vols != [] {
      var init, last := vols[..|vols| - 1], vols[|vols| - 1];
      var s, t := ScanVolumes(g, init), ScanVolumes(g, vols);
      OnlyPayload(g, init);
      ScanPlacesOnly(g, last, s, |PLACES|);
      forall i | 0 <= i < |t.files| ensures FromVolumes(vols, t.files[i]) {
        if i < |s.files| {
          assert t.files[i] == s.files[i] && FromVolumes(init, s.files[i]);
          var v: nat :| v < |init| && FromPlaces(init[v], |PLACES|, s.files[i]);
          assert vols[v] == init[v];
        } else {
          assert FromPlaces(vols[|vols| - 1], |PLACES|, t.files[i]);
        }
      }
    }
  }

  /** The payload file `target` is readable, not empty, and a scanned place of volume v leads to it. */
  ghost predicate Payload(vols: seq<Vol>, v: nat, k: nat, target: Wide) {
    && v < |vols| && k < |PLACES| && Reaches(vols[v], PLACES[k].0, PLACES[k].1, 0, target)
    && UnixName(target) != [] && target in vols[v].files && vols[v].files[target] != []
  }

  /** When growth is never denied, a name is listed exactly when it is the stored name of a payload
      file, ignoring case. */
  lemma ListedIff(g: Grants, vols: seq<Vol>, name: seq<byte>)
    requires forall n :: g(n)
    ensures Contains(ScanVolumes(g, vols).files, name) <==>
      exists v: nat, k: nat, target :: Payload(vols, v, k, target) && NameEq(UnixName(target), name)
  {
    hide ScanVolumes, PLACES, Reaches, UnixName, Fold;
    var fs := ScanVolumes(g, vols).files;
    if Contains(fs, name) {
      var i :| 0 <= i < |fs| && NameEq(fs[i].name, name);
      OnlyPayload(g, vols);
      assert FromVolumes(vols, fs[i]);
      var v: nat :| v < |vols| && FromPlaces(vols[v], |PLACES|, fs[i]);
      var k: nat :| k < |PLACES| && FromPlace(vols[v], k, fs[i]);
      var p :| Reaches(vols[v], PLACES[k].0, PLACES[k].1, 0, p) && ContentAt(vols[v], p, fs[i]);
      assert Payload(vols, v, k, p);
    }
    if v: nat, k: nat, target :| Payload(vols, v, k, target) && NameEq(UnixName(target), name) {
      PayloadListed(g, vols, v, k, target);
      ContainsFold(fs, UnixName(target), name);
    }
  }

  lemma ContainsFold(fs: seq<ScanFile>, a: seq<byte>, b: seq<byte>)
    requires Contains(fs, a) && NameEq(a, b)
    ensures Contains(fs, b)
  {
    hide Fold;
    var i :| 0 <= i < |fs| && NameEq(fs[i].name, a);
    assert NameEq(fs[i].name, b);
  }

  // ---- the order decides between files of the same name ----

  lemma {:induction false} ScanListSplit(g: Grants, vol: Vol, s: State, path: Wide, a: seq<Info>, b: seq<Info>, recursive: bool, depth: nat)
    requires depth <= MAX_DEPTH
    ensures ScanList(g, vol, s, path, a + b, recursive, depth)
         == ScanList(g, vol, ScanList(g, vol, s, path, a, recursive, depth), path, b, recursive, depth)
    decreases |a|
  {
    hide ScanOne;
    if a == [] { assert a + b == b; } else {
      assert (a + b)[1..] == a[1..] + b;
      ScanListSplit(g, vol, ScanOne(g, vol, s, path, a[0], recursive, depth), path, a[1..], b, recursive, depth);
    }
  }

  /** Entries are scanned in listing order: what the first n entries of a listing give comes first. */
  lemma ListingOrder(g: Grants, vol: Vol, s: State, path: Wide, infos: seq<Info>, n: nat, recursive: bool, depth: nat)
    requires depth <= MAX_DEPTH && n <= |infos|
    ensures ScanList(g, vol, s, path, infos[..n], recursive, depth).files <= ScanList(g, vol, s, path, infos, recursive, depth).files
  {
    hide ScanList;
    assert infos[..n] + infos[n..] == infos;
    ScanListSplit(g, vol, s, path, infos[..n], infos[n..], recursive, depth);
    ScanListOnly(g, vol, ScanList(g, vol, s, path, infos[..n], recursive, depth), path, infos[n..], recursive, depth);
  }

  /** The volumes are scanned in their order: what the first n of them give comes first. */
  lemma {:induction false} VolumeOrder(g: Grants, vols: seq<Vol>, n: nat)
    requires n <= |vols|
    ensures ScanVolumes(g, vols[..n]).files <= ScanVolumes(g, vols).files
    decreases |vols|
  {
    hide ScanPlaces;
    if n == |vols| { assert vols[..n] == vols; } else {
      var init := vols[..|vols| - 1];
      assert init[..n] == vols[..n];
      VolumeOrder(g, init, n);
      ScanPlacesOnly(g, vols[|vols| - 1], ScanVolumes(g, init), |PLACES|);
    }
  }

  /** The places of a volume are scanned in their order, the root directory first and without its
      subdirectories. */
  lemma {:induction false} PlaceOrder(g: Grants, vol: Vol, s: State, n: nat, m: nat)
    requires n <= m <= |PLACES|
    ensures ScanPlaces(g, vol, s, n).files <= ScanPlaces(g, vol, s, m).files
    ensures m >= 1 ==> ScanDir(g, vol, s, [BACKSLASH], false, 0).files <= ScanPlaces(g, vol, s, m).files
    decreases m
  {
    hide ScanDir, PLACES;
    if m > 0 {
      var u := ScanPlaces(g, vol, s, m - 1);
      ScanDirOnly(g, vol, u, PLACES[m - 1].0, PLACES[m - 1].1, 0);
      RootFirst();
      if n < m { PlaceOrder(g, vol, s, n, m - 1); } else if m > 1 { PlaceOrder(g, vol, s, m - 1, m - 1); }
    }
  }

  lemma RootFirst()
    ensures |PLACES| == 7 && PLACES[0] == ([BACKSLASH], false) && PLACES[6] == ([BACKSLASH], true)
  {
    assert W("\\") == [BACKSLASH];
  }

  /** The places, in their order: the root, five named directories with all below them, and the
      root again with all below it. */
  lemma SevenPlacesAre(k: nat)
    requires k < 7
    ensures |PLACES| == 7 && PLACES[k].1 == (k > 0)
    ensures var name := ["", "system", "apps", "icons", "firmware", "fonts", ""][k];
      |PLACES[k].0| == 1 + |name| && PLACES[k].0[0] == 92 && forall i :: 0 <= i < |name| ==> PLACES[k].0[1 + i] == name[i] as int
  {
  }

  /** Nameless entries, "." and ".." are passed over. */
  lemma DotsSkipped(g: Grants, vol: Vol, s: State, path: Wide, isDir: bool, recursive: bool, depth: nat)
    requires depth <= MAX_DEPTH
    ensures ScanOne(g, vol, s, path, Info([], isDir), recursive, depth) == s
    ensures ScanOne(g, vol, s, path, Info([46], isDir), recursive, depth) == s
    ensures ScanOne(g, vol, s, path, Info([46, 46], isDir), recursive, depth) == s
  {
    hide TryLoad, ScanDir, Join;
  }

  // ---- the programs ----

  /** Both copy loops of the program: text goes behind the first pos units while it fits. */
  method CopyUnits(out: array<unit16>, pos: nat, text: Wide) returns (ok: bool, end: nat)
    requires out.Length == PATH_CAP && pos < PATH_CAP
    modifies out
    ensures ok == (pos + |text| < PATH_CAP)
    ensures ok ==> end == pos + |text| && out[..end] == old(out[..pos]) + text
  {
    end := pos;
    for i := 0 to |text|
      invariant end == pos + i && end < PATH_CAP && out[..end] == old(out[..pos]) + text[..i]
    {
      if end + 1 >= PATH_CAP { return false, end; }
      out[end] := text[i];
      end := end + 1;
    }
    assert text[..|text|] == text;
    return true, end;
  }

  /** The separator behind the base, where one is due. */
  method AddSeparator(out: array<unit16>, base: Wide) returns (ok: bool, end: nat)
    requires out.Length == PATH_CAP && |base| < PATH_CAP && out[..|base|] == base
    modifies out
    ensures ok == (|Join(base, [])| < PATH_CAP)
    ensures ok ==> end == |Join(base, [])| && out[..end] == Join(base, [])
  {
    hide Join;
    JoinPrefix(base, []);
    end := |base|;
    if end == 0 || (end > 1 && out[end - 1] != BACKSLASH) {
      if end + 1 >= PATH_CAP { return false, end; }
      out[end] := BACKSLASH;
      end := end + 1;
      assert out[..end] == base + [BACKSLASH];
    }
    return true, end;
  }

  method AppendPath(out: array<unit16>, base: Wide, name: Wide) returns (ok: bool)
    requires out.Length == PATH_CAP
    modifies out
    ensures ok == PathAppend(base, name).Some?
    ensures ok ==> var p := PathAppend(base, name).value; out[..|p|] == p && out[|p|] == 0
  {
    hide Join;
    JoinPrefix(base, name);
    var pos;
    ok, pos := CopyUnits(out, 0, base);
    if !ok { return; }
    assert out[..|base|] == base;
    ok, pos := AddSeparator(out, base);
    if !ok { return; }
    ok, pos := CopyUnits(out, pos, name);
    if ok {
      out[pos] := 0;
      assert out[..pos] == Join(base, name);
    }
  }

  lemma JoinPrefix(base: Wide, name: Wide)
    ensures Join(base, name) == Join(base, []) + name && base <= Join(base, [])
    ensures Join(base, []) == if base == [] || (|base| > 1 && base[|base| - 1] != BACKSLASH) then base + [BACKSLASH] else base
  {
  }

  class FileList {
    var files: array<ScanFile>
    var count: nat
    var total: nat
    var asked: nat

    ghost predicate Valid()
      reads this
    {
      count <= files.Length
    }

    ghost function View(): State
      requires Valid()
      reads this, files
    {
      State(files[..count], files.Length, total, asked)
    }

    constructor ()
      ensures Valid() && View() == State([], 0, 0, 0) && fresh(files)
    {
      files := new ScanFile[0];
      count, total, asked := 0, 0, 0;
    }

    method Has(name: seq<byte>) returns (found: bool)
      requires Valid()
      ensures found == Contains(View().files, name)
    {
      hide Fold;
      for i := 0 to count
        invariant forall k :: 0 <= k < i ==> !NameEq(files[k].name, name)
      {
        if NameEq(files[i].name, name) {
          assert View().files[i].name == files[i].name;
          return true;
        }
      }
      return false;
    }

    /** `ramdisk_scan_grow`: a larger array that starts with the old entries. */
    method Grow(g: Grants) returns (ok: bool)
      requires Valid()
      modifies this
      ensures Valid() && ok == g(old(asked))
      ensures ok ==> fresh(files) && count < files.Length
      ensures !ok ==> files == old(files)
      ensures View() == old(View()).(asked := old(asked) + 1, cap := if ok then Doubled(old(files.Length)) else old(files.Length))
    {
      asked := asked + 1;
      if !g(asked - 1) { return false; }
      var old_ := files;
      var n := count;
      var bigger := new ScanFile[Doubled(files.Length)](k requires 0 <= k < Doubled(old_.Length) reads old_ =>
        if k < n && k < old_.Length then old_[k] else ScanFile([], []));
      assert bigger[..n] == old_[..n];
      files := bigger;
      return true;
    }

    method AddFile(g: Grants, name: seq<byte>, data: seq<byte>)
      requires Valid()
      modifies this, files
      ensures Valid() && (files == old(files) || fresh(files))
      ensures View() == Add(g, old(View()), name, data)
    {
      if data == [] { return; }
      if count == files.Length {
        var ok := Grow(g);
        if !ok { return; }
      }
      ghost var before := files[..count];
      files[count] := ScanFile(name[..Min(|name|, NAME_CAP - 1)], data);
      count := count + 1;
      total := total + |data|;
      assert files[..count - 1] == before;
      assert files[..count] == before + [ScanFile(name[..Min(|name|, NAME_CAP - 1)], data)];
    }

    method TryLoadFile(g: Grants, vol: Vol, path: Wide)
      requires Valid()
      modifies this, files
      ensures Valid() && (files == old(files) || fresh(files))
      ensures View() == TryLoad(g, vol, old(View()), path)
    {
      hide UnixName, Contains, Add;
      var name := UnixName(path);
      if name == [] { return; }
      var present := Has(name);
      if present || path !in vol.files { return; }
      AddFile(g, name, vol.files[path]);
    }

    method ScanDirectory(g: Grants, vol: Vol, path: Wide, recursive: bool, depth: nat)
      requires Valid()
      modifies this, files
      ensures Valid() && (files == old(files) || fresh(files))
      ensures View() == ScanDir(g, vol, old(View()), path, recursive, depth)
      decreases if depth <= MAX_DEPTH then MAX_DEPTH + 1 - depth else 0
    {
      hide TryLoad, ShouldLoad, Join, Contains;
      if depth > MAX_DEPTH || path !in vol.dirs { return; }
      var infos := vol.dirs[path];
      for i := 0 to |infos|
        invariant Valid() && (files == old(files) || fresh(files))
        invariant ScanList(g, vol, old(View()), path, infos, recursive, depth)
               == ScanList(g, vol, View(), path, infos[i..], recursive, depth)
      {
        var info := infos[i];
        assert infos[i..][0] == info && infos[i..][1..] == infos[i + 1..];
        ghost var before := View();
        if info.name != [] && !IsDots(info.name) {
          var child := new unit16[PATH_CAP](_ => 0);
          var ok := AppendPath(child, path, info.name);
          if ok {
            var childPath := PathAppend(path, info.name).value;
            if info.isDir {
              if recursive { ScanDirectory(g, vol, childPath, recursive, depth + 1); }
            } else if ShouldLoad(info.name) {
              TryLoadFile(g, vol, childPath);
            }
          }
        }
        assert View() == ScanOne(g, vol, before, path, info, recursive, depth);
      }
    }

    method ScanFilesystem(g: Grants, vol: Vol)
      requires Valid()
      modifies this, files
      ensures Valid() && (files == old(files) || fresh(files))
      ensures View() == ScanPlaces(g, vol, old(View()), |PLACES|)
    {
      hide ScanDir, PLACES;
      for k := 0 to |PLACES|
        invariant Valid() && (files == old(files) || fresh(files))
        invariant View() == ScanPlaces(g, vol, old(View()), k)
      {
        ScanDirectory(g, vol, PLACES[k].0, PLACES[k].1, 0);
      }
    }
  }
}
