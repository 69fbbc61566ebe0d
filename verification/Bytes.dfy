/** Bytes, little-endian integers and packed C structs.

    A `__attribute__((packed))` struct is a list of field widths; `Pack` lays the
    field values out in little-endian order and `Unpack` reads them back. */
module Bytes {

  type byte = b: int | 0 <= b < 256

  function Pow256(n: nat): (p: nat)
    ensures p >= 1
  {
    if n == 0 then 1 else 256 * Pow256(n - 1)
  }

  function ToLE(v: nat, w: nat): (s: seq<byte>)
    ensures |s| == w
  {
    if w == 0 then [] else [v % 256] + ToLE(v / 256, w - 1)
  }

  function FromLE(s: seq<byte>): nat {
    if s == [] then 0 else s[0] + 256 * FromLE(s[1..])
  }

  lemma {:induction false} FromToLE(v: nat, w: nat)
    requires v < Pow256(w)
    ensures FromLE(ToLE(v, w)) == v
  {
    if w > 0 {
      FromToLE(v / 256, w - 1);
      assert ToLE(v, w)[1..] == ToLE(v / 256, w - 1);
    }
  }

  lemma DivMod256(b: byte, v: nat)
    ensures var x: int := b; (x + 256 * v) % 256 == b && (x + 256 * v) / 256 == v
  {
  }

  lemma FromLEStep(s: seq<byte>)
    requires s != []
    ensures var b: int := s[0]; FromLE(s) == b + 256 * FromLE(s[1..])
  {
  }

  lemma {:induction false} ToFromLE(s: seq<byte>)
    ensures FromLE(s) < Pow256(|s|)
    ensures ToLE(FromLE(s), |s|) == s
  {
    hide FromLE;
    if s == [] {
      FromLEZeros(s);
    } else {
      ToFromLE(s[1..]);
      FromLEStep(s);
      DivMod256(s[0], FromLE(s[1..]));
      assert s == [s[0]] + s[1..];
    }
  }

  lemma FromLEZeros(s: seq<byte>)
    requires forall i :: 0 <= i < |s| ==> s[i] == 0
    ensures FromLE(s) == 0
  {
  }

  lemma PowValues()
    ensures Pow256(1) == 0x100 && Pow256(2) == 0x1_0000 && Pow256(4) == 0x1_0000_0000
    ensures Pow256(8) == 0x1_0000_0000_0000_0000
  {
    assert Pow256(1) == 256 * Pow256(0);
    assert Pow256(2) == 256 * Pow256(1);
    assert Pow256(3) == 256 * Pow256(2);
    assert Pow256(4) == 256 * Pow256(3);
    assert Pow256(5) == 256 * Pow256(4);
    assert Pow256(6) == 256 * Pow256(5);
    assert Pow256(7) == 256 * Pow256(6);
    assert Pow256(8) == 256 * Pow256(7);
  }

  // ---- packed structs ----

  function Sum(ws: seq<nat>): nat {
    if ws == [] then 0 else ws[0] + Sum(ws[1..])
  }

  ghost predicate Fits(ws: seq<nat>, vs: seq<nat>) {
    |ws| == |vs| && forall i :: 0 <= i < |ws| ==> vs[i] < Pow256(ws[i])
  }

  function Pack(ws: seq<nat>, vs: seq<nat>): (s: seq<byte>)
    requires |ws| == |vs|
    ensures |s| == Sum(ws)
  {
    if ws == [] then [] else ToLE(vs[0], ws[0]) + Pack(ws[1..], vs[1..])
  }

  function Unpack(ws: seq<nat>, s: seq<byte>): (vs: seq<nat>)
    requires |s| == Sum(ws)
    ensures |vs| == |ws|
  {
    if ws == [] then [] else [FromLE(s[..ws[0]])] + Unpack(ws[1..], s[ws[0]..])
  }

  /** Storing a struct whose values fit their fields and reading it back gives the same values. */
  lemma {:induction false} UnpackPack(ws: seq<nat>, vs: seq<nat>)
    requires Fits(ws, vs)
    ensures Unpack(ws, Pack(ws, vs)) == vs
  {
    hide FromLE, ToLE;
    if ws != [] {
      FromToLE(vs[0], ws[0]);
      UnpackPack(ws[1..], vs[1..]);
      var head, tail := ToLE(vs[0], ws[0]), Pack(ws[1..], vs[1..]);
      assert (head + tail)[..ws[0]] == head && (head + tail)[ws[0]..] == tail;
    }
  }

  /** Reading a struct never leaves a field out of range, and storing it again restores every byte. */
  lemma {:induction false} PackUnpack(ws: seq<nat>, s: seq<byte>)
    requires |s| == Sum(ws)
    ensures Fits(ws, Unpack(ws, s))
    ensures Pack(ws, Unpack(ws, s)) == s
  {
    hide FromLE, ToLE;
    if ws != [] {
      ToFromLE(s[..ws[0]]);
      PackUnpack(ws[1..], s[ws[0]..]);
      var vs := Unpack(ws, s);
      forall i | 0 <= i < |ws| ensures vs[i] < Pow256(ws[i]) {
        if i > 0 { assert vs[i] == Unpack(ws[1..], s[ws[0]..])[i - 1]; }
      }
      assert s == s[..ws[0]] + s[ws[0]..];
    }
  }

  lemma {:induction false} UnpackZeros(ws: seq<nat>, s: seq<byte>)
    requires |s| == Sum(ws)
    requires forall i :: 0 <= i < |s| ==> s[i] == 0
    ensures forall i :: 0 <= i < |ws| ==> Unpack(ws, s)[i] == 0
  {
    if ws != [] {
      FromLEZeros(s[..ws[0]]);
      UnpackZeros(ws[1..], s[ws[0]..]);
    }
  }

  lemma {:induction false} SumTake(ws: seq<nat>, k: nat)
    requires k < |ws|
    ensures Sum(ws[..k + 1]) == Sum(ws[..k]) + ws[k]
  {
    if k == 0 {
      assert ws[..1][1..] == [] && ws[..0] == [];
    } else {
      SumTake(ws[1..], k - 1);
      assert ws[..k + 1][1..] == ws[1..][..k] && ws[..k][1..] == ws[1..][..k - 1];
    }
  }

  lemma DropSlice(s: seq<byte>, n: nat, a: nat, b: nat)
    requires a <= b && n + b <= |s|
    ensures s[n..][a..b] == s[n + a..n + b]
  {
    var x, y := s[n..][a..b], s[n + a..n + b];
    forall i | 0 <= i < b - a ensures x[i] == y[i] { assert x[i] == s[n..][a + i] && y[i] == s[n + a + i]; }
  }

  /** Field k of a packed struct lies behind the fields before it. */
  lemma {:induction false} PackField(ws: seq<nat>, vs: seq<nat>, k: nat)
    requires |ws| == |vs| && k < |ws|
    ensures var off := Sum(ws[..k]);
      off + ws[k] <= Sum(ws) && Pack(ws, vs)[off..off + ws[k]] == ToLE(vs[k], ws[k])
  {
    hide ToLE;
    var head, tail := ToLE(vs[0], ws[0]), Pack(ws[1..], vs[1..]);
    if k == 0 {
      assert ws[..0] == [];
      assert (head + tail)[..ws[0]] == head;
    } else {
      PackField(ws[1..], vs[1..], k - 1);
      assert ws[..k][1..] == ws[1..][..k - 1];
      var off := Sum(ws[1..][..k - 1]);
      assert (head + tail)[ws[0]..] == tail;
      DropSlice(head + tail, ws[0], off, off + ws[k]);
    }
  }

  /** Field k is read from behind the fields before it. */
  lemma {:induction false} UnpackField(ws: seq<nat>, s: seq<byte>, k: nat)
    requires |s| == Sum(ws) && k < |ws|
    ensures var off := Sum(ws[..k]); off + ws[k] <= |s| && Unpack(ws, s)[k] == FromLE(s[off..off + ws[k]])
  {
    hide FromLE;
    var tail := s[ws[0]..];
    if k == 0 {
      assert ws[..0] == [];
    } else {
      UnpackField(ws[1..], tail, k - 1);
      assert ws[..k][1..] == ws[1..][..k - 1];
      var off := Sum(ws[1..][..k - 1]);
      DropSlice(s, ws[0], off, off + ws[k]);
    }
  }

  // ---- editing a buffer ----

  /** `memcpy(buf + off, chunk, |chunk|)` */
  function Splice<T>(buf: seq<T>, off: nat, chunk: seq<T>): (r: seq<T>)
    requires off + |chunk| <= |buf|
    ensures |r| == |buf|
    ensures r[off..off + |chunk|] == chunk
    ensures forall i :: 0 <= i < |buf| && !(off <= i < off + |chunk|) ==> r[i] == buf[i]
  {
    buf[..off] + chunk + buf[off + |chunk|..]
  }

  function Zeros(n: nat): (s: seq<byte>)
    ensures |s| == n && forall i :: 0 <= i < n ==> s[i] == 0
  {
    seq(n, _ => 0)
  }

  function Min(a: int, b: int): int {
    if a < b then a else b
  }
}
