/** src/boot/efi_loader.c: the GetMemoryMap / ExitBootServices retry loop against firmware
    that may change its memory map, and with it the map key, between any two calls. */
module ExitBoot {
  import opened Bitmap

  const ATTEMPTS := 8
  const SLACK := 16
  const PAGE_SIZE := 4096
  const IDENTITY_LIMIT := 0x1_0000_0000

  // ---- firmware answers ----

  /** GetMemoryMap: the buffer is too small (with the size needed), the map was written
      (size, key and descriptor size), or another error. */
  datatype GetAnswer = TooSmall(needed: nat, desc: nat) | Map(size: nat, key: nat, desc: nat) | GetFailed

  datatype ExitAnswer = Accepted | InvalidKey | ExitFailed

  /** Everything the firmware does during one attempt; `current` is the key of its map when
      ExitBootServices is called, and `pages` the answer to a request for a larger buffer. */
  datatype Attempt = Attempt(get: GetAnswer, pages: Option<nat>, current: nat, exit: ExitAnswer)

  type Firmware = nat -> Attempt

  // ---- the loader ----

  datatype MapRecord = MapRecord(key: nat, size: nat, desc: nat)

  /** The map fields of the handoff block, zero until the first map was read. */
  datatype Handoff = Handoff(base: nat, size: nat, desc: nat, limit: nat)

  const ZERO_HANDOFF := Handoff(0, 0, 0, 0)

  /** Buffer address, its capacity in bytes, the map it holds, and the handoff. */
  datatype Loader = Loader(buf: nat, cap: nat, held: Option<MapRecord>, handoff: Handoff)

  datatype Death = SizeError | NoPages | MapError | ExitError | MaxRetries

  /** `Entered` is the jump to the kernel after a success break; `FellThrough` the same jump
      after the loop ran out of attempts. */
  datatype Outcome = Entered(l: Loader, key: nat) | FellThrough(l: Loader) | Died(why: Death)

  function Capacity(needed: nat, desc: nat): nat {
    needed + desc * SLACK
  }

  /** Bytes of the pages allocated for a capacity. */
  function Allocated(cap: nat): nat {
    (cap + PAGE_SIZE - 1) / PAGE_SIZE * PAGE_SIZE
  }

  function Read(l: Loader, size: nat, key: nat, desc: nat): Loader {
    l.(held := Some(MapRecord(key, size, desc)), handoff := Handoff(l.buf, size, desc, IDENTITY_LIMIT))
  }

  /** The loader with the larger buffer of an attempt whose buffer was too small. */
  function Moved(l: Loader, a: Attempt): Loader
    requires a.get.TooSmall? && a.pages.Some?
  {
    Loader(a.pages.value, Capacity(a.get.needed, a.get.desc), None, l.handoff)
  }

  function Loop(fw: Firmware, k: nat, l: Loader): Outcome
    requires k <= ATTEMPTS
    decreases ATTEMPTS - k
  {
    if k == ATTEMPTS then FellThrough(l)
    else
      var a := fw(k);
      match a.get
      case GetFailed => Died(MapError)
      case TooSmall(needed, desc) =>
        (match a.pages
         case None => Died(NoPages)
         case Some(_) => Loop(fw, k + 1, Moved(l, a)))
      case Map(size, key, desc) =>
        var l' := Read(l, size, key, desc);
        match a.exit
        case Accepted => Entered(l', key)
        case ExitFailed => Died(ExitError)
        case InvalidKey => if k == ATTEMPTS - 1 then Died(MaxRetries) else Loop(fw, k + 1, l')
  }

  // ---- what the firmware owes (UEFI Specification, sections 7.2.3 and 7.4.6) ----

  /** Pages granted for a map buffer, which the loader never frees. */
  datatype Grant = Grant(addr: nat, cap: nat)

  function GrantEnd(g: Grant): nat {
    g.addr + Allocated(g.cap)
  }

  /** Page-aligned memory below the limit that overlaps nothing granted before. */
  ghost predicate FreshPages(g: Grant, given: seq<Grant>) {
    && 0 < g.addr && g.addr % PAGE_SIZE == 0 && GrantEnd(g) <= IDENTITY_LIMIT
    && forall i :: 0 <= i < |given| ==> GrantEnd(g) <= given[i].addr || GrantEnd(given[i]) <= g.addr
  }

  /** A map is written only if it fits the buffer, a buffer is called too small only if it
      is, descriptors have a size, new pages are fresh, and a key is accepted only if it is
      current. */
  ghost predicate Conforms(a: Attempt, cap: nat, given: seq<Grant>) {
    && (a.get.Map? ==> a.get.size <= cap && a.get.desc > 0)
    && (a.get.TooSmall? ==> a.get.needed > cap && a.get.desc > 0)
    && (a.get.TooSmall? && a.pages.Some? ==> FreshPages(Grant(a.pages.value, Capacity(a.get.needed, a.get.desc)), given))
    && (a.get.Map? && a.exit == Accepted ==> a.get.key == a.current)
  }

  ghost predicate Conforming(fw: Firmware, k: nat, l: Loader, given: seq<Grant>)
    requires k <= ATTEMPTS
    decreases ATTEMPTS - k
  {
    k == ATTEMPTS
    || (&& Conforms(fw(k), l.cap, given)
        && (fw(k).get.TooSmall? && fw(k).pages.Some? ==>
              var l' := Moved(l, fw(k));
              Conforming(fw, k + 1, l', given + [Grant(l'.buf, l'.cap)]))
        && (fw(k).get.Map? && fw(k).exit == InvalidKey ==>
              Conforming(fw, k + 1, Read(l, fw(k).get.size, fw(k).get.key, fw(k).get.desc), given)))
  }

  /** The handoff describes the buffer and the map that buffer holds, which has this key and
      fits the pages allocated for it. */
  ghost predicate Describes(l: Loader, key: nat) {
    && l.held == Some(MapRecord(key, l.handoff.size, l.handoff.desc))
    && l.handoff.base == l.buf
    && l.handoff.size <= l.cap <= Allocated(l.cap)
    && l.handoff.limit == IDENTITY_LIMIT
  }

  lemma AllocatedHolds(cap: nat)
    ensures cap <= Allocated(cap)
  {
  }

  /** Whenever the loop leaves by its success break, the handoff describes the buffer that
      holds the very map whose key was accepted, and that key was current at the time. */
  lemma {:induction false} FreshMapAtExit(fw: Firmware, k: nat, l: Loader, given: seq<Grant>) returns (n: nat)
    requires k <= ATTEMPTS && Conforming(fw, k, l, given) && Loop(fw, k, l).Entered?
    ensures var o := Loop(fw, k, l);
      && k <= n < ATTEMPTS
      && fw(n).get == Map(o.l.handoff.size, o.key, o.l.handoff.desc) && fw(n).exit == Accepted && fw(n).current == o.key
      && Describes(o.l, o.key)
    decreases ATTEMPTS - k
  {
    hide Allocated, Capacity, FreshPages;
    var a := fw(k);
    if a.get.TooSmall? {
      var l' := Moved(l, a);
      n := FreshMapAtExit(fw, k + 1, l', given + [Grant(l'.buf, l'.cap)]);
    } else if a.exit == Accepted {
      n := k;
      AllocatedHolds(l.cap);
    } else {
      n := FreshMapAtExit(fw, k + 1, Read(l, a.get.size, a.get.key, a.get.desc), given);
    }
  }

  /** A buffer that is too small twice in a row: the map grew by more than 16 descriptors in
      between. */
  lemma GrowthSuffices(l: Loader, a: Attempt, b: Attempt, given: seq<Grant>, more: seq<Grant>)
    requires Conforms(a, l.cap, given) && a.get.TooSmall? && a.pages.Some?
    requires Conforms(b, Moved(l, a).cap, more) && b.get.TooSmall?
    ensures b.get.needed > a.get.needed + 16 * a.get.desc
  {
    hide FreshPages;
  }

  // ---- every outcome, exactly ----

  /** The attempt ends in a retry. */
  predicate Continues(a: Attempt) {
    (a.get.TooSmall? && a.pages.Some?) || (a.get.Map? && a.exit == InvalidKey)
  }

  /** Attempt n is made: all attempts before it were retries. */
  ghost predicate Comes(fw: Firmware, k: nat, n: nat) {
    k <= n < ATTEMPTS && forall j :: k <= j < n ==> Continues(fw(j))
  }

  lemma ComesLater(fw: Firmware, k: nat, n: nat)
    requires k < n
    ensures Comes(fw, k, n) <==> Continues(fw(k)) && Comes(fw, k + 1, n)
  {
  }

  lemma ComesNow(fw: Firmware, k: nat)
    requires k < ATTEMPTS
    ensures Comes(fw, k, k)
  {
  }

  /** What the loader is after a retry. */
  function Retried(l: Loader, a: Attempt): Loader
    requires Continues(a)
  {
    if a.get.TooSmall? then Moved(l, a) else Read(l, a.get.size, a.get.key, a.get.desc)
  }

  /** Attempt n is made and ends the loop like this. */
  ghost predicate EndsAt(fw: Firmware, k: nat, n: nat, o: Outcome) {
    && Comes(fw, k, n)
    && match o
       case Entered(_, key) => fw(n).get.Map? && fw(n).exit == Accepted && fw(n).get.key == key
       case FellThrough(_) => n == 7 && fw(n).get.TooSmall? && fw(n).pages.Some?
       case Died(NoPages) => fw(n).get.TooSmall? && fw(n).pages.None?
       case Died(MapError) => fw(n).get.GetFailed?
       case Died(ExitError) => fw(n).get.Map? && fw(n).exit == ExitFailed
       case Died(MaxRetries) => n == 7 && fw(n).get.Map? && fw(n).exit == InvalidKey
       case Died(SizeError) => false
  }

  /** The loop comes to an end at exactly one attempt, in the way that attempt says. */
  lemma {:induction false} LoopEnds(fw: Firmware, k: nat, l: Loader) returns (n: nat)
    requires k < ATTEMPTS
    ensures EndsAt(fw, k, n, Loop(fw, k, l))
    decreases ATTEMPTS - k
  {
    hide Capacity;
    ComesNow(fw, k);
    if Continues(fw(k)) && k < ATTEMPTS - 1 {
      n := LoopEnds(fw, k + 1, Retried(l, fw(k)));
      ComesLater(fw, k, n);
    } else {
      n := k;
    }
  }

  /** Exactly when the kernel is entered, and which death is died. */
  lemma OutcomeIff(fw: Firmware, k: nat, l: Loader)
    requires k < ATTEMPTS
    ensures var o := Loop(fw, k, l);
      && (o.Entered? <==> exists n :: Comes(fw, k, n) && fw(n).get.Map? && fw(n).exit == Accepted)
      && (o == Died(NoPages) <==> exists n :: Comes(fw, k, n) && fw(n).get.TooSmall? && fw(n).pages.None?)
      && (o == Died(MapError) <==> exists n :: Comes(fw, k, n) && fw(n).get.GetFailed?)
      && (o == Died(ExitError) <==> exists n :: Comes(fw, k, n) && fw(n).get.Map? && fw(n).exit == ExitFailed)
      && (o == Died(MaxRetries) <==> Comes(fw, k, 7) && fw(7).get.Map? && fw(7).exit == InvalidKey)
  {
    hide Loop, Comes;
    var n := LoopEnds(fw, k, l);
    forall j | Comes(fw, k, j) && !Continues(fw(j)) ensures j == n { OnlyStop(fw, k, j, n); }
    if Comes(fw, k, 7) { LastStop(fw, k, n); }
  }

  lemma OnlyStop(fw: Firmware, k: nat, j: nat, n: nat)
    requires Comes(fw, k, j) && !Continues(fw(j)) && Comes(fw, k, n) && (n == 7 || !Continues(fw(n)))
    ensures j == n
  {
  }

  lemma LastStop(fw: Firmware, k: nat, n: nat)
    requires Comes(fw, k, 7) && Comes(fw, k, n) && (n == 7 || !Continues(fw(n)))
    ensures n == 7
  {
  }

  /** On entry the handoff describes the buffer of the accepted attempt and the map read then. */
  lemma {:induction false} EnteredHandoff(fw: Firmware, k: nat, l: Loader) returns (n: nat)
    requires k <= ATTEMPTS && Loop(fw, k, l).Entered?
    ensures Comes(fw, k, n) && fw(n).get.Map? && fw(n).exit == Accepted
    ensures var o := Loop(fw, k, l);
      && o.key == fw(n).get.key
      && o.l.handoff == Handoff(BufferAt(fw, k, l.buf, n), fw(n).get.size, fw(n).get.desc, IDENTITY_LIMIT)
    decreases ATTEMPTS - k
  {
    hide Capacity;
    ComesNow(fw, k);
    var a := fw(k);
    if Continues(a) {
      var l' := Retried(l, a);
      n := EnteredHandoff(fw, k + 1, l');
      ComesLater(fw, k, n);
      BufferAtNext(fw, k, l.buf, n);
      assert l'.buf == BufferAt(fw, k, l.buf, k + 1);
    } else {
      n := k;
    }
  }

  // ---- from the first call on ----

  /** The size query, the first buffer and the loop. */
  function Boot(first: GetAnswer, pages: Option<nat>, fw: Firmware): Outcome {
    if !first.TooSmall? || first.desc == 0 then Died(SizeError)
    else if pages.None? then Died(NoPages)
    else Loop(fw, 0, Loader(pages.value, Capacity(first.needed, first.desc), None, ZERO_HANDOFF))
  }

  /** The ordinary boot: a size, a buffer, one map and an accepted key. */
  lemma FirstTry(first: GetAnswer, pages: Option<nat>, fw: Firmware)
    requires first.TooSmall? && first.desc > 0 && pages.Some?
    requires fw(0).get.Map? && fw(0).exit == Accepted
    ensures Boot(first, pages, fw).Entered? && Boot(first, pages, fw).key == fw(0).get.key
    ensures Boot(first, pages, fw).l.handoff == Handoff(pages.value, fw(0).get.size, fw(0).get.desc, 0x1_0000_0000)
  {
  }

  /** Exactly when the kernel is entered after the success break. */
  lemma BootIff(first: GetAnswer, pages: Option<nat>, fw: Firmware)
    ensures Boot(first, pages, fw).Entered? <==>
      && first.TooSmall? && first.desc > 0 && pages.Some?
      && exists n :: Comes(fw, 0, n) && fw(n).get.Map? && fw(n).exit == Accepted
    ensures Boot(first, pages, fw) == Died(SizeError) <==> !(first.TooSmall? && first.desc > 0)
  {
    hide Loop, Comes, Capacity;
    if first.TooSmall? && first.desc > 0 && pages.Some? {
      var l := Loader(pages.value, Capacity(first.needed, first.desc), None, ZERO_HANDOFF);
      OutcomeIff(fw, 0, l);
      var n := LoopEnds(fw, 0, l);
    }
  }

  // ---- when the kernel is entered without leaving boot services ----

  predicate GrowsLast(a: Attempt) {
    a.get.TooSmall? && a.pages.Some?
  }

  /** The loop runs out, and the kernel is entered with boot services still running, exactly
      when every attempt was a retry and the eighth one was a buffer that was too small. */
  lemma {:induction false} FellThroughIff(fw: Firmware, k: nat, l: Loader)
    requires k < ATTEMPTS
    ensures Loop(fw, k, l).FellThrough? <==>
      GrowsLast(fw(ATTEMPTS - 1)) && forall j :: k <= j < ATTEMPTS ==> Continues(fw(j))
    decreases ATTEMPTS - k
  {
    hide Capacity;
    var a := fw(k);
    if k < ATTEMPTS - 1 && Continues(a) {
      FellThroughIff(fw, k + 1, if a.get.TooSmall? then Moved(l, a) else Read(l, a.get.size, a.get.key, a.get.desc));
    }
  }

  /** The buffer of attempt j, when attempt k starts with `buf`. */
  function BufferAt(fw: Firmware, k: nat, buf: nat, j: nat): nat
    decreases j
  {
    if j <= k then buf
    else if fw(j - 1).get.TooSmall? && fw(j - 1).pages.Some? then fw(j - 1).pages.value
    else BufferAt(fw, k, buf, j - 1)
  }

  lemma {:induction false} BufferAtNext(fw: Firmware, k: nat, buf: nat, j: nat)
    requires k < j
    ensures BufferAt(fw, k, buf, j) == BufferAt(fw, k + 1, BufferAt(fw, k, buf, k + 1), j)
    decreases j
  {
    if j > k + 1 { BufferAtNext(fw, k, buf, j - 1); }
  }

  /** The handoff describes the map that attempt j read into its buffer and whose key the
      firmware rejected. */
  ghost predicate Rejected(fw: Firmware, k: nat, buf: nat, j: nat, h: Handoff) {
    && fw(j).get.Map? && fw(j).exit == InvalidKey
    && h == Handoff(BufferAt(fw, k, buf, j), fw(j).get.size, fw(j).get.desc, IDENTITY_LIMIT)
  }

  /** After falling through, the handoff is still the one before the loop or describes the
      buffer and map of some attempt whose key the firmware rejected; no attempt was accepted. */
  lemma {:induction false} FellThroughIsStale(fw: Firmware, k: nat, l: Loader)
    requires k <= ATTEMPTS && Loop(fw, k, l).FellThrough?
    ensures var h := Loop(fw, k, l).l.handoff;
      h == l.handoff || exists j :: k <= j < ATTEMPTS && Rejected(fw, k, l.buf, j, h)
    decreases ATTEMPTS - k
  {
    hide Capacity;
    if k < ATTEMPTS {
      var a, h := fw(k), Loop(fw, k, l).l.handoff;
      var l' := if a.get.TooSmall? then Moved(l, a) else Read(l, a.get.size, a.get.key, a.get.desc);
      assert l'.buf == BufferAt(fw, k, l.buf, k + 1);
      FellThroughIsStale(fw, k + 1, l');
      if h == l'.handoff {
        assert a.get.Map? ==> Rejected(fw, k, l.buf, k, h);
      } else {
        var j :| k + 1 <= j < ATTEMPTS && Rejected(fw, k + 1, l'.buf, j, h);
        BufferAtNext(fw, k, l.buf, j);
        assert Rejected(fw, k, l.buf, j, h);
      }
    }
  }

  // The descriptor size of section 7.2.3, and how much a buffer grows in one attempt.
  const DESC_SIZE := 48
  const GROWTH := SLACK * DESC_SIZE + 1

  /** Room for the largest buffer of the eight attempts. */
  function Stride(cap: nat): nat {
    Allocated(cap + ATTEMPTS * GROWTH)
  }

  /** Firmware whose map has always just outgrown the buffer, and which grants fresh pages
      from `base` on. */
  function Outgrowing(cap: nat, base: nat): Firmware {
    (j: nat) => Attempt(TooSmall(cap + 1 + j * GROWTH, DESC_SIZE), Some(base + j * Stride(cap)), 0, ExitFailed)
  }

  lemma AllocatedMono(a: nat, b: nat)
    requires a <= b
    ensures Allocated(a) <= Allocated(b) && Allocated(b) % PAGE_SIZE == 0
  {
  }

  lemma StrideAligned(base: nat, stride: nat, j: nat)
    requires base % PAGE_SIZE == 0 && stride % PAGE_SIZE == 0
    ensures (base + j * stride) % PAGE_SIZE == 0
  {
    var q, r := base / PAGE_SIZE, stride / PAGE_SIZE;
    assert base + j * stride == (q + j * r) * PAGE_SIZE;
  }

  lemma StrideBelow(stride: nat, j: nat)
    requires j < ATTEMPTS
    ensures j * stride + stride == (j + 1) * stride <= ATTEMPTS * stride
  {
  }

  lemma OutgrowingConforms(cap: nat, base: nat, k: nat, l: Loader, given: seq<Grant>)
    requires k < ATTEMPTS && l.cap <= cap + k * GROWTH
    requires 0 < base && base % PAGE_SIZE == 0 && base + ATTEMPTS * Stride(cap) <= IDENTITY_LIMIT
    requires forall i :: 0 <= i < |given| ==> GrantEnd(given[i]) <= base + k * Stride(cap)
    ensures var a := Outgrowing(cap, base)(k);
      && Conforms(a, l.cap, given)
      && Moved(l, a).cap == cap + (k + 1) * GROWTH
      && GrantEnd(Grant(Moved(l, a).buf, Moved(l, a).cap)) <= base + (k + 1) * Stride(cap)
  {
    hide Allocated;
    var stride := Stride(cap);
    var g := Grant(base + k * stride, cap + (k + 1) * GROWTH);
    assert Capacity(cap + 1 + k * GROWTH, DESC_SIZE) == g.cap;
    AllocatedMono(g.cap, cap + ATTEMPTS * GROWTH);
    StrideAligned(base, stride, k);
    StrideBelow(stride, k);
    assert FreshPages(g, given);
  }

  /** Such firmware conforms, and the kernel is entered with the handoff map still as before. */
  lemma {:induction false} OutgrownLoop(cap: nat, base: nat, k: nat, l: Loader, given: seq<Grant>)
    requires k <= ATTEMPTS && l.cap <= cap + k * GROWTH
    requires 0 < base && base % PAGE_SIZE == 0 && base + ATTEMPTS * Stride(cap) <= IDENTITY_LIMIT
    requires forall i :: 0 <= i < |given| ==> GrantEnd(given[i]) <= base + k * Stride(cap)
    ensures Conforming(Outgrowing(cap, base), k, l, given)
    ensures var o := Loop(Outgrowing(cap, base), k, l); o.FellThrough? && o.l.handoff == l.handoff
    decreases ATTEMPTS - k
  {
    hide Conforms, Stride, GrantEnd, Capacity, GROWTH;
    if k < ATTEMPTS {
      var a := Outgrowing(cap, base)(k);
      OutgrowingConforms(cap, base, k, l, given);
      var l' := Moved(l, a);
      var more := given + [Grant(l'.buf, l'.cap)];
      StrideBelow(Stride(cap), k);
      forall i | 0 <= i < |more| ensures GrantEnd(more[i]) <= base + (k + 1) * Stride(cap) {
        if i < |given| { assert more[i] == given[i]; }
      }
      OutgrownLoop(cap, base, k + 1, l', more);
    }
  }

  /** A map of 100 descriptors at first, in a buffer at 64 KiB: the kernel is entered with boot
      services running and with no memory map in the handoff. */
  lemma OutgrownExample()
    ensures var l := Loader(0x1_0000, Capacity(100 * DESC_SIZE, DESC_SIZE), None, ZERO_HANDOFF);
      var fw := Outgrowing(l.cap, 0x10_0000);
      && Conforming(fw, 0, l, [Grant(l.buf, l.cap)])
      && Loop(fw, 0, l).FellThrough? && Loop(fw, 0, l).l.handoff == ZERO_HANDOFF
  {
    hide Conforming, Loop, Outgrowing;
    var l := Loader(0x1_0000, Capacity(100 * DESC_SIZE, DESC_SIZE), None, ZERO_HANDOFF);
    OutgrownLoop(l.cap, 0x10_0000, 0, l, [Grant(l.buf, l.cap)]);
  }

  // ---- the program ----

  /** The first GetMemoryMap, the first buffer, and the loop, updating the handoff in place. */
  class BootExit {
    var buf: nat
    var cap: nat
    var held: Option<MapRecord>
    var handoff: Handoff

    function View(): Loader
      reads this
    {
      Loader(buf, cap, held, handoff)
    }

    constructor (firstBuf: nat, needed: nat, desc: nat)
      ensures View() == Loader(firstBuf, Capacity(needed, desc), None, ZERO_HANDOFF)
    {
      buf, cap, held, handoff := firstBuf, Capacity(needed, desc), None, ZERO_HANDOFF;
    }

    method Exit(fw: Firmware) returns (died: Option<Death>, key: Option<nat>)
      modifies this
      ensures match Loop(fw, 0, old(View()))
              case Entered(l, k) => died == None && key == Some(k) && View() == l
              case FellThrough(l) => died == None && key == None && View() == l
              case Died(why) => died == Some(why) && key == None
    {
      hide Capacity;
      for attempt := 0 to ATTEMPTS
        invariant Loop(fw, 0, old(View())) == Loop(fw, attempt, View())
      {
        var a := fw(attempt);
        if a.get.TooSmall? {
          if a.pages.None? { return Some(NoPages), None; }
          buf := a.pages.value;
          cap := Capacity(a.get.needed, a.get.desc);
          held := None;
        } else if a.get.GetFailed? {
          return Some(MapError), None;
        } else {
          held := Some(MapRecord(a.get.key, a.get.size, a.get.desc));
          handoff := Handoff(buf, a.get.size, a.get.desc, IDENTITY_LIMIT);
          if a.exit == Accepted { return None, Some(a.get.key); }
          if a.exit != InvalidKey { return Some(ExitError), None; }
          if attempt == ATTEMPTS - 1 { return Some(MaxRetries), None; }
        }
      }
      return None, None;
    }
  }

  /** The stage from the size query to the jump. */
  method BootKernel(first: GetAnswer, pages: Option<nat>, fw: Firmware) returns (o: Outcome)
    ensures o == Boot(first, pages, fw)
  {
    hide Loop, Capacity;
    if !first.TooSmall? || first.desc == 0 { return Died(SizeError); }
    if pages.None? { return Died(NoPages); }
    var b := new BootExit(pages.value, first.needed, first.desc);
    var died, key := b.Exit(fw);
    if died.Some? { return Died(died.value); }
    o := if key.Some? then Entered(b.View(), key.value) else FellThrough(b.View());
  }
}
