/** The allocation bitmaps of tools/totcopy.c and the searches over them. */
module Bitmap {
  import opened Bytes

  datatype Option<+T> = None | Some(value: T)

  // ---- one byte ----

  /** `(b >> k) & 1` */
  predicate BitOf(b: nat, k: nat) {
    if k == 0 then b % 2 == 1 else BitOf(b / 2, k - 1)
  }

  /** `b | (1 << k)` */
  function WithBit(b: nat, k: nat): nat {
    if k == 0 then b + (1 - b % 2) else b % 2 + 2 * WithBit(b / 2, k - 1)
  }

  function Pow2(n: nat): nat {
    if n == 0 then 1 else 2 * Pow2(n - 1)
  }

  lemma {:induction false} WithBitRange(b: nat, k: nat, n: nat)
    requires k < n && b < Pow2(n)
    ensures b <= WithBit(b, k) < Pow2(n)
  {
    if k > 0 {
      var q, p := b / 2, Pow2(n - 1);
      assert b == 2 * q + b % 2;
      assert q < p;
      WithBitRange(q, k - 1, n - 1);
    } else {
      var p := Pow2(n - 1);
      assert b % 2 == 0 ==> b + 1 < 2 * p;
    }
  }

  lemma {:induction false} BitOfWithBit(b: nat, k: nat, j: nat)
    ensures BitOf(WithBit(b, k), j) == (j == k || BitOf(b, j))
    decreases k
  {
    if k > 0 && j > 0 { BitOfWithBit(b / 2, k - 1, j - 1); }
  }

  lemma {:induction false} BitOfZero(k: nat)
    ensures !BitOf(0, k)
  {
    if k > 0 { BitOfZero(k - 1); }
  }

  lemma {:induction false} BitOfIsBinary(b: nat, k: nat)
    ensures Pow2(k) > 0 && (BitOf(b, k) <==> b / Pow2(k) % 2 == 1)
    decreases k
  {
    if k > 0 {
      BitOfIsBinary(b / 2, k - 1);
      DivTwice(b, Pow2(k - 1));
    }
  }

  lemma DivTwice(b: nat, p: nat)
    requires p > 0
    ensures b / 2 / p == b / (2 * p)
  {
    var q := b / 2 / p;
    var r := b / 2 - q * p;
    assert 0 <= r < p;
    assert b == 2 * p * q + (2 * r + b % 2) && 0 <= 2 * r + b % 2 < 2 * p;
    DivUnique(b, 2 * p, q, 2 * r + b % 2);
  }

  lemma DivUnique(b: nat, n: nat, q: nat, r: nat)
    requires n > 0 && r < n && b == n * q + r
    ensures b / n == q
  {
    var k := b / n;
    assert k < q ==> n * (k + 1) <= n * q;
    assert k > q ==> n * (q + 1) <= n * k;
  }

  lemma {:induction false} WithBitAdds(b: nat, k: nat)
    ensures WithBit(b, k) == if BitOf(b, k) then b else b + Pow2(k)
    decreases k
  {
    if k > 0 { WithBitAdds(b / 2, k - 1); }
  }

  function SetByteBit(b: byte, k: nat): (r: byte)
    requires k < 8
  {
    assert Pow2(8) == 256 by {
      assert Pow2(4) == 16;
      assert Pow2(8) == 2 * (2 * (2 * (2 * Pow2(4))));
    }
    WithBitRange(b, k, 8);
    WithBit(b, k)
  }

  // ---- a bitmap ----

  predicate InMap(bmp: seq<byte>, i: nat) {
    i < 8 * |bmp|
  }

  predicate Bit(bmp: seq<byte>, i: nat)
    requires InMap(bmp, i)
  {
    BitOf(bmp[i / 8], i % 8)
  }

  function SetBit(bmp: seq<byte>, i: nat): (r: seq<byte>)
    requires InMap(bmp, i)
    ensures |r| == |bmp|
  {
    bmp[i / 8 := SetByteBit(bmp[i / 8], i % 8)]
  }

  lemma BitSetBit(bmp: seq<byte>, i: nat, j: nat)
    requires InMap(bmp, i) && InMap(bmp, j)
    ensures Bit(SetBit(bmp, i), j) == (i == j || Bit(bmp, j))
  {
    BitOfWithBit(bmp[i / 8], i % 8, j % 8);
  }

  /** Bit i is bit i % 8 of byte i / 8, counted from the least significant one; setting it adds its
      weight to that byte. */
  lemma BitWeight(bmp: seq<byte>, i: nat)
    requires InMap(bmp, i)
    ensures Pow2(i % 8) > 0 && (Bit(bmp, i) <==> bmp[i / 8] / Pow2(i % 8) % 2 == 1)
    ensures !Bit(bmp, i) ==> var old_: int := bmp[i / 8]; SetBit(bmp, i)[i / 8] == old_ + Pow2(i % 8)
  {
    BitOfIsBinary(bmp[i / 8], i % 8);
    WithBitAdds(bmp[i / 8], i % 8);
  }

  /** Marks bits start .. start + n. */
  function SetRun(bmp: seq<byte>, start: nat, n: nat): (r: seq<byte>)
    requires start + n <= 8 * |bmp|
    ensures |r| == |bmp|
    decreases n
  {
    if n == 0 then bmp else SetBit(SetRun(bmp, start, n - 1), start + n - 1)
  }

  lemma {:induction false} BitSetRun(bmp: seq<byte>, start: nat, n: nat, j: nat)
    requires start + n <= 8 * |bmp| && InMap(bmp, j)
    ensures Bit(SetRun(bmp, start, n), j) == (start <= j < start + n || Bit(bmp, j))
    decreases n
  {
    hide Bit, SetBit;
    if n > 0 {
      BitSetRun(bmp, start, n - 1, j);
      BitSetBit(SetRun(bmp, start, n - 1), start + n - 1, j);
    }
  }

  // ---- counting free bits ----

  function CountClear(bmp: seq<byte>, n: nat): (c: nat)
    requires n <= 8 * |bmp|
    ensures c <= n
  {
    if n == 0 then 0 else CountClear(bmp, n - 1) + (if Bit(bmp, n - 1) then 0 else 1)
  }

  lemma {:induction false} CountSetBit(bmp: seq<byte>, i: nat, n: nat)
    requires n <= 8 * |bmp| && InMap(bmp, i) && !Bit(bmp, i)
    ensures CountClear(SetBit(bmp, i), n) == CountClear(bmp, n) - (if i < n then 1 else 0)
  {
    hide Bit, SetBit;
    if n > 0 {
      CountSetBit(bmp, i, n - 1);
      BitSetBit(bmp, i, n - 1);
    }
  }

  lemma {:induction false} CountSetRun(bmp: seq<byte>, start: nat, k: nat, n: nat)
    requires start + k <= n <= 8 * |bmp|
    requires FreeRun(bmp, 0, n, start, k)
    ensures CountClear(SetRun(bmp, start, k), n) == CountClear(bmp, n) - k
    decreases k
  {
    hide Bit, SetBit, CountClear;
    if k > 0 {
      CountSetRun(bmp, start, k - 1, n);
      BitSetRun(bmp, start, k - 1, start + k - 1);
      CountSetBit(SetRun(bmp, start, k - 1), start + k - 1, n);
    }
  }

  // ---- searching ----

  /** The lowest clear bit in [i, hi). */
  function FirstClear(bmp: seq<byte>, i: nat, hi: nat): (r: Option<nat>)
    requires hi <= 8 * |bmp|
    ensures r.Some? ==> i <= r.value < hi && !Bit(bmp, r.value)
    ensures r.Some? ==> forall k :: i <= k < r.value ==> Bit(bmp, k)
    ensures r.None? ==> forall k :: i <= k < hi ==> Bit(bmp, k)
    decreases hi - i
  {
    if i >= hi then None else if !Bit(bmp, i) then Some(i) else FirstClear(bmp, i + 1, hi)
  }

  /** Bits s .. s + n are all clear and lie in [lo, hi). */
  ghost predicate FreeRun(bmp: seq<byte>, lo: nat, hi: nat, s: nat, n: nat)
    requires hi <= 8 * |bmp|
  {
    lo <= s && s + n <= hi && forall k :: s <= k < s + n ==> !Bit(bmp, k)
  }

  datatype Run = Run(start: nat, len: nat)

  /** The scan of `alloc_blocks_contig` from bit i on, with the run seen so far.
      A result of length 0 means that nothing could be allocated. */
  function Scan(bmp: seq<byte>, i: nat, hi: nat, run: Run, count: nat): (r: Run)
    requires hi <= 8 * |bmp|
    ensures run.len < count ==> r.len <= count
    decreases hi - i
  {
    if i >= hi then run
    else if Bit(bmp, i) then Scan(bmp, i + 1, hi, Run(run.start, 0), count)
    else
      var next := Run(if run.len == 0 then i else run.start, run.len + 1);
      if next.len >= count then next else Scan(bmp, i + 1, hi, next, count)
  }

  /** What first-fit means, without reference to the scan: the lowest free run of the
      requested length if there is one, else the longest free run that ends at hi. */
  ghost predicate FirstFit(bmp: seq<byte>, lo: nat, hi: nat, count: nat, r: Run)
    requires hi <= 8 * |bmp|
  {
    if exists s: nat :: FreeRun(bmp, lo, hi, s, count) then
      && r.len == count
      && FreeRun(bmp, lo, hi, r.start, count)
      && forall s: nat :: s < r.start ==> !FreeRun(bmp, lo, hi, s, count)
    else
      && r.len < count
      && r.len <= hi - lo
      && FreeRun(bmp, lo, hi, hi - r.len, r.len)
      && (r.len > 0 ==> r.start == hi - r.len)
      && (hi - r.len == lo || Bit(bmp, hi - r.len - 1))
  }

  /** The state of the scan after bits lo .. i: `run` is the maximal free run ending at i
      and no full run ends at or before i. */
  ghost predicate ScanState(bmp: seq<byte>, lo: nat, hi: nat, i: nat, run: Run, count: nat)
    requires hi <= 8 * |bmp|
  {
    && lo <= i <= hi
    && run.len < count
    && run.len <= i - lo
    && (run.len > 0 ==> run.start == i - run.len)
    && (forall k :: i - run.len <= k < i ==> !Bit(bmp, k))
    && (i - run.len == lo || Bit(bmp, i - run.len - 1))
    && (forall s: nat :: s + count <= i ==> !FreeRun(bmp, lo, hi, s, count))
  }

  lemma ScanStepUsed(bmp: seq<byte>, lo: nat, hi: nat, i: nat, run: Run, count: nat)
    requires hi <= 8 * |bmp| && ScanState(bmp, lo, hi, i, run, count) && i < hi && Bit(bmp, i)
    ensures ScanState(bmp, lo, hi, i + 1, Run(run.start, 0), count)
  {
    hide Bit;
    forall s: nat | s + count == i + 1 ensures !FreeRun(bmp, lo, hi, s, count) {
      assert s <= i < s + count;
    }
  }

  lemma ScanStepFree(bmp: seq<byte>, lo: nat, hi: nat, i: nat, run: Run, count: nat)
    requires hi <= 8 * |bmp| && ScanState(bmp, lo, hi, i, run, count) && i < hi && !Bit(bmp, i)
    requires run.len + 1 < count
    ensures ScanState(bmp, lo, hi, i + 1, Run(i - run.len, run.len + 1), count)
  {
    hide Bit;
    forall s: nat | s + count == i + 1 ensures !FreeRun(bmp, lo, hi, s, count) {
      if s >= lo {
        var k := i - run.len - 1;
        assert s <= k < s + count && Bit(bmp, k);
      }
    }
  }

  lemma {:induction false} ScanIsFirstFit(bmp: seq<byte>, lo: nat, hi: nat, i: nat, run: Run, count: nat)
    requires hi <= 8 * |bmp| && ScanState(bmp, lo, hi, i, run, count)
    ensures FirstFit(bmp, lo, hi, count, Scan(bmp, i, hi, run, count))
    decreases hi - i
  {
    hide Bit;
    if i == hi {
    } else if Bit(bmp, i) {
      ScanStepUsed(bmp, lo, hi, i, run, count);
      ScanIsFirstFit(bmp, lo, hi, i + 1, Run(run.start, 0), count);
    } else if run.len + 1 >= count {
      assert FreeRun(bmp, lo, hi, i - run.len, count);
    } else {
      ScanStepFree(bmp, lo, hi, i, run, count);
      ScanIsFirstFit(bmp, lo, hi, i + 1, Run(i - run.len, run.len + 1), count);
    }
  }

  /** For every bitmap and every positive request the scan is exactly first-fit. */
  lemma AllocIsFirstFit(bmp: seq<byte>, lo: nat, hi: nat, count: nat)
    requires lo <= hi <= 8 * |bmp| && count > 0
    ensures FirstFit(bmp, lo, hi, count, Scan(bmp, lo, hi, Run(0, 0), count))
  {
    ScanIsFirstFit(bmp, lo, hi, lo, Run(0, 0), count);
  }

  /** The scan comes back with nothing exactly when no full run is free and the last block of the
      volume is used: shorter runs elsewhere are not considered. */
  lemma AllocFailsIff(bmp: seq<byte>, lo: nat, hi: nat, count: nat)
    requires lo <= hi <= 8 * |bmp| && count > 0
    ensures Scan(bmp, lo, hi, Run(0, 0), count).len == 0 <==>
      !(exists s: nat :: FreeRun(bmp, lo, hi, s, count)) && (lo == hi || Bit(bmp, hi - 1))
  {
    hide Scan, Bit;
    AllocIsFirstFit(bmp, lo, hi, count);
  }
}
