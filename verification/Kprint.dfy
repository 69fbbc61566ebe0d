/** src/kernel/kprint.c: numerals, padding, and formatting into a fixed buffer. */
module Kprint {
  import opened Bytes
  import opened Bitmap

  const SCRATCH := 32
  const WORD64 := 0x1_0000_0000_0000_0000

  // ---- numerals ----

  function Digit(d: nat, upper: bool): char
    requires d < 16
  {
    if d < 10 then ('0' as int + d) as char else ((if upper then 'A' else 'a') as int + (d - 10)) as char
  }

  function Reversed(v: nat, base: nat, upper: bool): (r: string)
    requires 2 <= base <= 16
  {
    if v == 0 then "" else [Digit(v % base, upper)] + Reversed(v / base, base, upper)
  }

  function Backwards(s: string): (r: string)
    ensures |r| == |s|
  {
    if s == [] then [] else Backwards(s[1..]) + [s[0]]
  }

  /** The numeral of v, most significant digit first. */
  function Numeral(v: nat, base: nat, upper: bool): string
    requires 2 <= base <= 16
  {
    if v == 0 then "0" else Backwards(Reversed(v, base, upper))
  }

  function DigitValue(c: char): int {
    if '0' <= c <= '9' then c as int - '0' as int
    else if 'a' <= c <= 'f' then c as int - 'a' as int + 10
    else if 'A' <= c <= 'F' then c as int - 'A' as int + 10
    else -1
  }

  /** The number a digit string denotes in a base, read from the left. */
  function Value(s: string, base: nat): int {
    if s == [] then 0 else Value(s[..|s| - 1], base) * base + DigitValue(s[|s| - 1])
  }

  lemma DigitRoundTrip(d: nat, upper: bool)
    requires d < 16
    ensures DigitValue(Digit(d, upper)) == d
  {
  }

  lemma ReversedStep(v: nat, base: nat, upper: bool)
    requires 2 <= base <= 16 && v > 0
    ensures v / base < v && v % base < base && v / base * base + v % base == v
    ensures Reversed(v, base, upper) == [Digit(v % base, upper)] + Reversed(v / base, base, upper)
  {
    hide Digit;
    DivFacts(v, base);
  }

  lemma DivFacts(v: nat, base: nat)
    requires base >= 2 && v > 0
    ensures v / base < v && v % base < base && v / base * base + v % base == v
  {
    var q := v / base;
    assert q * base + v % base == v;
    MulMono(q, 2, base);
  }

  lemma {:induction false} ReversedValue(v: nat, base: nat, upper: bool)
    requires 2 <= base <= 16
    ensures Value(Backwards(Reversed(v, base, upper)), base) == v
  {
    hide Digit, DigitValue, Reversed, Value, Backwards;
    if v > 0 {
      ReversedStep(v, base, upper);
      var q, d := v / base, Digit(v % base, upper);
      ReversedValue(q, base, upper);
      DigitRoundTrip(v % base, upper);
      AppendDigit(Reversed(q, base, upper), d, base);
    } else {
      ReversedZero(base, upper);
      NothingIsZero(base);
    }
  }

  lemma ReversedZero(base: nat, upper: bool)
    requires 2 <= base <= 16
    ensures Reversed(0, base, upper) == ""
  {
  }

  lemma NothingIsZero(base: nat)
    ensures Value(Backwards(""), base) == 0
  {
  }

  lemma AppendDigit(r: string, d: char, base: nat)
    ensures Value(Backwards([d] + r), base) == Value(Backwards(r), base) * base + DigitValue(d)
  {
    hide DigitValue;
    assert ([d] + r)[1..] == r;
    var init := Backwards(r);
    assert (init + [d])[..|init|] == init;
  }

  /** Every numeral denotes its argument. */
  lemma NumeralValue(v: nat, base: nat, upper: bool)
    requires 2 <= base <= 16
    ensures Value(Numeral(v, base, upper), base) == v
  {
    if v == 0 { assert "0"[..0] == ""; } else { ReversedValue(v, base, upper); }
  }

  /** A digit string as the formatter writes it: its own digits, no leading zero. */
  ghost predicate Canonical(s: string, base: nat, upper: bool)
    requires 2 <= base <= 16
  {
    && s != [] && (|s| > 1 ==> s[0] != '0')
    && forall i :: 0 <= i < |s| ==> IsOwnDigit(s[i], base, upper)
  }

  /** A digit of the base, in the case asked for. */
  ghost predicate IsOwnDigit(c: char, base: nat, upper: bool)
    requires 2 <= base <= 16
  {
    0 <= DigitValue(c) < base && (if upper then !('a' <= c <= 'f') else !('A' <= c <= 'F'))
  }

  lemma OwnDigitIs(c: char, base: nat, upper: bool)
    requires 2 <= base <= 16 && IsOwnDigit(c, base, upper)
    ensures c == Digit(DigitValue(c), upper)
  {
  }

  lemma OwnDigit(d: nat, base: nat, upper: bool)
    requires 2 <= base <= 16 && d < base
    ensures IsOwnDigit(Digit(d, upper), base, upper) && (d > 0 ==> Digit(d, upper) != '0')
  {
    DigitRoundTrip(d, upper);
  }

  lemma BackwardsCons(c: char, r: string)
    ensures Backwards([c] + r) == Backwards(r) + [c]
  {
    assert ([c] + r)[1..] == r;
  }

  lemma {:induction false} ReversedCanonical(v: nat, base: nat, upper: bool)
    requires 2 <= base <= 16 && v > 0
    ensures Canonical(Backwards(Reversed(v, base, upper)), base, upper)
    ensures Backwards(Reversed(v, base, upper))[0] != '0'
    decreases v
  {
    hide Digit, DigitValue, Reversed, IsOwnDigit, Backwards;
    ReversedStep(v, base, upper);
    var q, d := v / base, Digit(v % base, upper);
    BackwardsCons(d, Reversed(q, base, upper));
    OwnDigit(v % base, base, upper);
    if q > 0 { ReversedCanonical(q, base, upper); } else {
      ReversedZero(base, upper);
      EmptyBackwards();
    }
  }

  lemma EmptyBackwards()
    ensures Backwards("") == ""
  {
  }

  lemma NumeralCanonical(v: nat, base: nat, upper: bool)
    requires 2 <= base <= 16
    ensures Canonical(Numeral(v, base, upper), base, upper)
  {
    hide Reversed;
    if v == 0 { OwnDigit(0, base, upper); } else { ReversedCanonical(v, base, upper); }
  }

  lemma LastDigit(s: string, base: nat)
    requires s != [] && 0 <= DigitValue(s[|s| - 1]) < base && Value(s[..|s| - 1], base) >= 0 && base >= 2
    ensures Value(s, base) % base == DigitValue(s[|s| - 1]) && Value(s, base) / base == Value(s[..|s| - 1], base)
  {
    hide DigitValue;
    var q, r := Value(s[..|s| - 1], base), DigitValue(s[|s| - 1]);
    QuotientUnique(q, r, base);
  }

  lemma QuotientUnique(q: nat, r: nat, base: nat)
    requires r < base
    ensures (q * base + r) % base == r && (q * base + r) / base == q
  {
    var n := q * base + r;
    var q', r' := n / base, n % base;
    assert q' * base + r' == n;
    if q' < q { MulMono(base, q' + 1, q); } else if q' > q { MulMono(base, q + 1, q'); }
  }

  /** The numeral is the only canonical string for its value: reading any canonical string
      and writing the number again gives the string back. */
  lemma {:induction false} NumeralUnique(s: string, base: nat, upper: bool)
    requires 2 <= base <= 16 && Canonical(s, base, upper)
    ensures Value(s, base) >= 0 && Numeral(Value(s, base), base, upper) == s
    decreases |s|
  {
    hide Digit, DigitValue, Reversed, Backwards;
    var init, last := s[..|s| - 1], s[|s| - 1];
    OwnDigitIs(last, base, upper);
    if |s| == 1 {
      assert init == "" && Value(init, base) == 0;
      OneDigit(last, base, upper);
    } else {
      if |init| > 1 || init[0] != '0' { assert Canonical(init, base, upper); }
      NumeralUnique(init, base, upper);
      LastDigit(s, base);
      var v, q := Value(s, base), Value(init, base);
      PositiveValue(init, base, upper);
      ReversedStep(v, base, upper);
      BackwardsCons(last, Reversed(q, base, upper));
    }
  }

  lemma OneDigit(c: char, base: nat, upper: bool)
    requires 2 <= base <= 16 && IsOwnDigit(c, base, upper)
    ensures Numeral(DigitValue(c), base, upper) == [c] && Value([c], base) == DigitValue(c)
  {
    hide Digit, DigitValue, Backwards, Reversed;
    assert [c][..0] == "";
    var v := DigitValue(c);
    OwnDigitIs(c, base, upper);
    if v > 0 { SmallNumeral(v, base, upper); } else { ZeroDigit(upper); }
  }

  lemma SmallNumeral(v: nat, base: nat, upper: bool)
    requires 0 < v < base <= 16
    ensures Backwards(Reversed(v, base, upper)) == [Digit(v, upper)]
  {
    hide Digit, Backwards, Reversed;
    SmallDivision(v, base);
    ReversedStep(v, base, upper);
    ReversedZero(base, upper);
    BackwardsCons(Digit(v, upper), "");
    EmptyBackwards();
  }

  lemma SmallDivision(v: nat, base: nat)
    requires v < base
    ensures v / base == 0 && v % base == v
  {
  }

  lemma ZeroDigit(upper: bool)
    ensures Digit(0, upper) == '0'
  {
  }

  /** A canonical string that does not start with '0' denotes a positive number. */
  lemma PositiveValue(s: string, base: nat, upper: bool)
    requires 2 <= base <= 16 && Canonical(s, base, upper) && s[0] != '0'
    requires Value(s, base) >= 0 && Numeral(Value(s, base), base, upper) == s
    ensures Value(s, base) > 0
  {
  }

  function Power(b: nat, n: nat): nat {
    if n == 0 then 1 else b * Power(b, n - 1)
  }

  lemma {:induction false} ReversedLength(v: nat, base: nat, upper: bool, n: nat)
    requires 2 <= base <= 16 && v < Power(base, n)
    ensures |Reversed(v, base, upper)| <= n
    decreases n
  {
    hide Digit, Reversed, Power;
    if v == 0 { ReversedZero(base, upper); } else {
      ReversedStep(v, base, upper);
      PowerStep(base, n);
      DivBelow(v, base, Power(base, n - 1));
      ReversedLength(v / base, base, upper, n - 1);
    }
  }

  lemma PowerStep(b: nat, n: nat)
    requires n == 0 ==> Power(b, n) > 1
    ensures n > 0 && Power(b, n) == b * Power(b, n - 1)
  {
  }

  lemma DivBelow(v: nat, base: nat, p: nat)
    requires base >= 2 && v > 0 && v < base * p
    ensures v / base < p
  {
    DivFacts(v, base);
    if v / base >= p { MulMono(base, p, v / base); }
  }

  lemma MulMono(b: nat, x: nat, y: nat)
    requires x <= y
    ensures b * x <= b * y
  {
  }

  lemma MulAssoc(x: nat, y: nat, z: nat)
    ensures x * (y * z) == (x * y) * z
  {
  }

  lemma {:induction false} PowerSum(b: nat, m: nat, n: nat)
    ensures Power(b, m + n) == Power(b, m) * Power(b, n)
    decreases m
  {
    if m > 0 {
      PowerSum(b, m - 1, n);
      MulAssoc(b, Power(b, m - 1), Power(b, n));
    }
  }

  /** Decimal and hexadecimal numerals of 64-bit values fit the 32-byte scratch. */
  lemma NumeralFits(v: nat, base: nat, upper: bool)
    requires v < WORD64 && (base == 10 || base == 16)
    ensures 1 <= |Numeral(v, base, upper)| <= 20 && |Reversed(v, base, upper)| < SCRATCH
  {
    assert Power(10, 5) == 100000 && Power(16, 4) == 65536;
    PowerSum(10, 5, 5);
    PowerSum(10, 10, 10);
    PowerSum(16, 4, 4);
    PowerSum(16, 8, 8);
    ReversedLength(v, base, upper, if base == 10 then 20 else 16);
  }

  // ---- directives ----

  datatype Arg = Text(s: Option<string>) | Char(c: char) | Signed(v: int) | Unsigned(u: nat)

  datatype Directive = Directive(zero: bool, left: bool, width: nat, spec: char)

  /** What follows a '%': the format ends cleanly, the terminator is stepped over, or a
      directive with the index behind it. */
  datatype Parsed = Ends | Overruns | Found(d: Directive, next: nat)

  predicate IsFlag(c: char) {
    c == '0' || c == '-' || c == ' ' || c == '+' || c == '#'
  }

  predicate IsDigit(c: char) {
    '0' <= c <= '9'
  }

  function FlagsEnd(fmt: string, p: nat): (q: nat)
    requires p <= |fmt|
    ensures p <= q <= |fmt|
    decreases |fmt| - p
  {
    if p < |fmt| && IsFlag(fmt[p]) then FlagsEnd(fmt, p + 1) else p
  }

  function WidthEnd(fmt: string, p: nat): (q: nat)
    requires p <= |fmt|
    ensures p <= q <= |fmt|
    decreases |fmt| - p
  {
    if p < |fmt| && IsDigit(fmt[p]) then WidthEnd(fmt, p + 1) else p
  }

  function Number(fmt: string, p: nat, q: nat): nat
    requires p <= q <= |fmt| && forall i :: p <= i < q ==> IsDigit(fmt[i])
    decreases q
  {
    if p == q then 0 else assert IsDigit(fmt[q - 1]); Number(fmt, p, q - 1) * 10 + (fmt[q - 1] as int - '0' as int)
  }

  lemma {:induction false} WidthDigits(fmt: string, p: nat)
    requires p <= |fmt|
    ensures forall i :: p <= i < WidthEnd(fmt, p) ==> IsDigit(fmt[i])
    decreases |fmt| - p
  {
    if p < |fmt| && IsDigit(fmt[p]) { WidthDigits(fmt, p + 1); }
  }

  function Parse(fmt: string, p: nat): (r: Parsed)
    requires p <= |fmt|
    ensures r.Found? ==> p < r.next <= |fmt|
  {
    if p == |fmt| then Ends
    else
      var f := FlagsEnd(fmt, p);
      var left := '-' in fmt[p..f];
      var zero := '0' in fmt[p..f] && !left;
      var w := WidthEnd(fmt, f);
      WidthDigits(fmt, f);
      var width := Number(fmt, f, w);
      if w < |fmt| && fmt[w] == 'l' then
        var l := if w + 1 < |fmt| && fmt[w + 1] == 'l' then w + 2 else w + 1;
        if l == |fmt| then Ends else Found(Directive(zero, left, width, fmt[l]), l + 1)
      else if w == |fmt| then Overruns
      else Found(Directive(zero, left, width, fmt[w]), w + 1)
  }

  // ---- directives read as they are written ----

  /** A directive spelled out: flags, width, none, one or two length letters, conversion. */
  function Written(d: Directive, len: nat): string {
    Flags(d) + Width(d) + Length(len) + [d.spec]
  }

  function Length(len: nat): string {
    if len == 0 then "" else if len == 1 then "l" else "ll"
  }

  function Flags(d: Directive): string {
    (if d.left then "-" else "") + (if d.zero then "0" else "")
  }

  function Width(d: Directive): string {
    if d.width > 0 then Numeral(d.width, 10, false) else ""
  }

  /** Zero padding and left alignment exclude each other; the conversion is no flag, digit
      or length letter. */
  ghost predicate Plausible(d: Directive) {
    !(d.zero && d.left) && Converts(d.spec)
  }

  lemma {:induction false} FlagsEndAt(fmt: string, p: nat, q: nat)
    requires p <= q < |fmt| && (forall i :: p <= i < q ==> IsFlag(fmt[i])) && !IsFlag(fmt[q])
    ensures FlagsEnd(fmt, p) == q
    decreases q - p
  {
    if p < q { FlagsEndAt(fmt, p + 1, q); }
  }

  lemma {:induction false} WidthEndAt(fmt: string, p: nat, q: nat)
    requires p <= q < |fmt| && (forall i :: p <= i < q ==> IsDigit(fmt[i])) && !IsDigit(fmt[q])
    ensures WidthEnd(fmt, p) == q
    decreases q - p
  {
    if p < q { WidthEndAt(fmt, p + 1, q); }
  }

  lemma {:induction false} NumberIsValue(fmt: string, p: nat, q: nat)
    requires p <= q <= |fmt| && forall i :: p <= i < q ==> IsDigit(fmt[i])
    ensures Number(fmt, p, q) == Value(fmt[p..q], 10)
    decreases q
  {
    if p < q {
      NumberIsValue(fmt, p, q - 1);
      assert IsDigit(fmt[q - 1]);
      assert fmt[p..q][..q - p - 1] == fmt[p..q - 1];
    }
  }

  lemma WidthText(d: Directive)
    ensures var w := Width(d);
      && Value(w, 10) == d.width && (forall i :: 0 <= i < |w| ==> IsDigit(w[i]))
      && (w != "" ==> w[0] != '0')
  {
    hide Reversed, Backwards;
    if d.width > 0 {
      NumeralValue(d.width, 10, false);
      NumeralCanonical(d.width, 10, false);
      ReversedCanonical(d.width, 10, false);
      var w := Width(d);
      forall i | 0 <= i < |w| ensures IsDigit(w[i]) { assert IsOwnDigit(w[i], 10, false); }
    }
  }

  lemma FlagsText(d: Directive)
    requires Plausible(d)
    ensures (forall i :: 0 <= i < |Flags(d)| ==> IsFlag(Flags(d)[i]))
    ensures ('-' in Flags(d)) == d.left && ('0' in Flags(d)) == d.zero
  {
  }

  ghost predicate AllFlags(flags: string) {
    forall i :: 0 <= i < |flags| ==> flags[i] in "0- +#"
  }

  /** A character that ends flags and width and is no length letter. */
  predicate Converts(c: char) {
    c !in "0- +#" && !('0' <= c <= '9') && c != 'l'
  }

  /** A directive with any flags, in any order and number. */
  function Spelled(flags: string, d: Directive, len: nat): string {
    flags + Width(d) + Length(len) + [d.spec]
  }

  /** What flags mean: zero padding unless the left flag is there too; the others nothing. */
  function Flagged(flags: string, d: Directive): Directive {
    Directive('0' in flags && '-' !in flags, '-' in flags, d.width, d.spec)
  }

  lemma SpelledAt(pre: string, flags: string, d: Directive, len: nat, post: string)
    ensures var fmt, p := pre + Spelled(flags, d, len) + post, |pre|;
      var f := p + |flags|;
      var w := f + |Width(d)|;
      var l := w + |Length(len)|;
      && l < |fmt| && fmt[p..f] == flags && fmt[f..w] == Width(d) && fmt[w..l] == Length(len) && fmt[l] == d.spec
  {
    hide Width, Length;
  }

  /** Inside any format, a directive is parsed as its flags, width and conversion say, whatever
      flags and length letters it carries. */
  lemma ParseSpelled(pre: string, flags: string, d: Directive, len: nat, post: string)
    requires AllFlags(flags) && Converts(d.spec)
    ensures Parse(pre + Spelled(flags, d, len) + post, |pre|) == Found(Flagged(flags, d), |pre| + |Spelled(flags, d, len)|)
  {
    hide Numeral, Number, FlagsEnd, WidthEnd, Width, Parse;
    WidthText(d);
    SpelledAt(pre, flags, d, len, post);
    ParseParts(pre + Spelled(flags, d, len) + post, |pre|, flags, |pre| + |flags| + |Width(d)|, d, len);
  }

  /** Every plausible directive, written out, is parsed as itself. */
  lemma ParseWritten(pre: string, d: Directive, len: nat, post: string)
    requires Plausible(d)
    ensures Parse(pre + Written(d, len) + post, |pre|) == Found(d, |pre| + |Written(d, len)|)
  {
    hide Numeral, Width, Parse, Length, Flags;
    FlagsText(d);
    assert Written(d, len) == Spelled(Flags(d), d, len);
    ParseSpelled(pre, Flags(d), d, len, post);
  }

  lemma ParseParts(fmt: string, p: nat, flags: string, w: nat, d: Directive, len: nat)
    requires AllFlags(flags) && Converts(d.spec)
    requires p + |flags| <= w && w + |Length(len)| < |fmt|
    requires fmt[p..p + |flags|] == flags && fmt[p + |flags|..w] == Width(d)
    requires fmt[w..w + |Length(len)|] == Length(len) && fmt[w + |Length(len)|] == d.spec
    ensures Parse(fmt, p) == Found(Flagged(flags, d), w + |Length(len)| + 1)
  {
    hide Number, FlagsEnd, WidthEnd, Width;
    var f := p + |flags|;
    WidthText(d);
    LengthAt(fmt, w, d, len);
    assert forall i :: p <= i < f ==> fmt[i] == fmt[p..f][i - p];
    assert forall i :: f <= i < w ==> fmt[i] == fmt[f..w][i - f];
    FlagsEndAt(fmt, p, f);
    WidthEndAt(fmt, f, w);
    NumberIsValue(fmt, f, w);
  }

  lemma LengthAt(fmt: string, w: nat, d: Directive, len: nat)
    requires Converts(d.spec) && w + |Length(len)| < |fmt|
    requires fmt[w..w + |Length(len)|] == Length(len) && fmt[w + |Length(len)|] == d.spec
    ensures len == 0 ==> fmt[w] == d.spec
    ensures len == 1 ==> fmt[w] == 'l' && fmt[w + 1] == d.spec
    ensures len >= 2 ==> fmt[w] == 'l' && fmt[w + 1] == 'l' && fmt[w + 2] == d.spec
    ensures !IsFlag(fmt[w]) && !IsDigit(fmt[w])
  {
    if len > 0 { assert fmt[w] == fmt[w..w + |Length(len)|][0]; }
    if len > 1 { assert fmt[w + 1] == fmt[w..w + |Length(len)|][1]; }
  }

  // ---- parsing depends only on what follows ----

  lemma {:induction false} FlagsEndShift(x: string, y: string, p: nat)
    requires p <= |y|
    ensures FlagsEnd(x + y, |x| + p) == |x| + FlagsEnd(y, p)
    decreases |y| - p
  {
    if p < |y| && IsFlag(y[p]) { FlagsEndShift(x, y, p + 1); }
  }

  lemma {:induction false} WidthEndShift(x: string, y: string, p: nat)
    requires p <= |y|
    ensures WidthEnd(x + y, |x| + p) == |x| + WidthEnd(y, p)
    decreases |y| - p
  {
    if p < |y| && IsDigit(y[p]) { WidthEndShift(x, y, p + 1); }
  }

  lemma {:induction false} NumberShift(x: string, y: string, p: nat, q: nat)
    requires p <= q <= |y| && forall i :: p <= i < q ==> IsDigit(y[i])
    ensures (forall i :: |x| + p <= i < |x| + q ==> IsDigit((x + y)[i])) && Number(x + y, |x| + p, |x| + q) == Number(y, p, q)
    decreases q
  {
    forall i | |x| + p <= i < |x| + q ensures IsDigit((x + y)[i]) { assert (x + y)[i] == y[i - |x|]; }
    if p < q { NumberShift(x, y, p, q - 1); }
  }

  function Shifted(r: Parsed, n: nat): Parsed {
    match r
    case Found(d, next) => Found(d, next + n)
    case other => other
  }

  lemma ParseShift(x: string, y: string, p: nat)
    requires p <= |y|
    ensures Parse(x + y, |x| + p) == Shifted(Parse(y, p), |x|)
  {
    hide FlagsEnd, WidthEnd, Number;
    FlagsEndShift(x, y, p);
    var f := FlagsEnd(y, p);
    WidthEndShift(x, y, f);
    WidthDigits(y, f);
    NumberShift(x, y, f, WidthEnd(y, f));
    assert (x + y)[|x| + p..|x| + f] == y[p..f];
  }

  /** A format ends inside a directive cleanly, right behind the '%' or behind length letters, and
      otherwise makes the loop step over the terminator, in its flags or width. */
  lemma ParseCut(pre: string, d: Directive)
    requires Plausible(d)
    ensures Parse(pre, |pre|) == Ends
    ensures Parse(pre + Flags(d) + Width(d) + "l", |pre|) == Ends
    ensures Flags(d) + Width(d) != "" ==> Parse(pre + Flags(d) + Width(d), |pre|) == Overruns
  {
    hide Number, Width, Flags, Parse;
    ParseCutLetter(pre, d);
    if Flags(d) + Width(d) != "" { ParseCutWidth(pre, d); }
    ParseNothing(pre);
  }

  lemma ParseNothing(pre: string)
    ensures Parse(pre, |pre|) == Ends
  {
  }

  lemma {:induction false} FlagsEndAll(fmt: string, p: nat)
    requires p <= |fmt| && forall i :: p <= i < |fmt| ==> IsFlag(fmt[i])
    ensures FlagsEnd(fmt, p) == |fmt|
    decreases |fmt| - p
  {
    if p < |fmt| { FlagsEndAll(fmt, p + 1); }
  }

  lemma {:induction false} WidthEndAll(fmt: string, p: nat)
    requires p <= |fmt| && forall i :: p <= i < |fmt| ==> IsDigit(fmt[i])
    ensures WidthEnd(fmt, p) == |fmt|
    decreases |fmt| - p
  {
    if p < |fmt| { WidthEndAll(fmt, p + 1); }
  }

  lemma ParseCutWidth(pre: string, d: Directive)
    requires Plausible(d) && Flags(d) + Width(d) != ""
    ensures Parse(pre + Flags(d) + Width(d), |pre|) == Overruns
  {
    hide Number, FlagsEnd, WidthEnd, Width, Flags;
    WidthText(d);
    FlagsText(d);
    var fmt, p := pre + Flags(d) + Width(d), |pre|;
    var f := p + |Flags(d)|;
    assert forall i :: p <= i < f ==> fmt[i] == Flags(d)[i - p];
    assert forall i :: f <= i < |fmt| ==> fmt[i] == Width(d)[i - f];
    if f < |fmt| { FlagsEndAt(fmt, p, f); } else { FlagsEndAll(fmt, p); }
    WidthEndAll(fmt, f);
  }

  lemma ParseCutLetter(pre: string, d: Directive)
    requires Plausible(d)
    ensures Parse(pre + Flags(d) + Width(d) + "l", |pre|) == Ends
  {
    hide Number, FlagsEnd, WidthEnd, Width, Flags;
    WidthText(d);
    FlagsText(d);
    var fmt, p := pre + Flags(d) + Width(d) + "l", |pre|;
    var f := p + |Flags(d)|;
    var w := f + |Width(d)|;
    assert forall i :: p <= i < f ==> fmt[i] == Flags(d)[i - p];
    assert forall i :: f <= i < w ==> fmt[i] == Width(d)[i - f];
    FlagsEndAt(fmt, p, f);
    WidthEndAt(fmt, f, w);
  }

  // ---- rendering ----

  function Pad(n: int, c: char): string {
    if n <= 0 then [] else seq(n, _ => c)
  }

  /** `emit_num`: zero padding goes behind the sign, blanks in front of it. */
  function Padded(num: string, width: nat, zero: bool, negative: bool): string {
    var sign := if negative then "-" else "";
    var gap := width - |num| - |sign|;
    if zero then sign + Pad(gap, '0') + num else Pad(gap, ' ') + sign + num
  }

  function Aligned(s: string, width: nat, left: bool): string {
    if left then s + Pad(width - |s|, ' ') else Pad(width - |s|, ' ') + s
  }

  predicate TakesArg(spec: char) {
    spec in "scdiuxXp"
  }

  predicate Fits(spec: char, a: Arg) {
    match a
    case Text(s) => spec == 's'
    case Char(c) => spec == 'c'
    case Signed(v) => spec in "di" && -0x8000_0000_0000_0000 <= v < 0x8000_0000_0000_0000
    case Unsigned(u) => spec in "uxXp" && u < WORD64
  }

  function Render(d: Directive, a: Arg): string
    requires Fits(d.spec, a)
  {
    match a
    case Text(s) => Aligned(if s.None? then "(null)" else s.value, d.width, d.left)
    case Char(c) => Aligned([c], d.width, d.left)
    case Signed(v) => Padded(Numeral(if v < 0 then -v else v, 10, false), d.width, d.zero, v < 0)
    case Unsigned(u) =>
      if d.spec == 'u' then Padded(Numeral(u, 10, false), d.width, d.zero, false)
      else if d.spec == 'p' then "0x" + Numeral(u, 16, false)
      else Padded(Numeral(u, 16, d.spec == 'X'), d.width, d.zero, false)
  }

  /** The format steps over no terminator and the arguments match its directives. */
  predicate Matches(fmt: string, p: nat, args: seq<Arg>)
    requires p <= |fmt|
    decreases |fmt| - p
  {
    if p == |fmt| then true
    else if fmt[p] != '%' then Matches(fmt, p + 1, args)
    else
      match Parse(fmt, p + 1)
      case Ends => true
      case Overruns => false
      case Found(d, next) =>
        if TakesArg(d.spec) then args != [] && Fits(d.spec, args[0]) && Matches(fmt, next, args[1..])
        else Matches(fmt, next, args)
  }

  /** The text of one directive that takes no argument. */
  function Plain(spec: char): string {
    if spec == '%' then "%" else ""
  }

  /** The whole formatted text from index p on, as if the buffer were unbounded. */
  function Output(fmt: string, p: nat, args: seq<Arg>): string
    requires p <= |fmt| && Matches(fmt, p, args)
    decreases |fmt| - p
  {
    if p == |fmt| then ""
    else if fmt[p] != '%' then [fmt[p]] + Output(fmt, p + 1, args)
    else
      match Parse(fmt, p + 1)
      case Ends => ""
      case Found(d, next) =>
        if TakesArg(d.spec) then Render(d, args[0]) + Output(fmt, next, args[1..])
        else Plain(d.spec) + Output(fmt, next, args)
  }

  // ---- what the text says ----

  lemma PadLength(n: int, c: char)
    ensures |Pad(n, c)| == if n <= 0 then 0 else n
  {
  }

  /** Aligned text fills the width with blanks on the one side the flag leaves free. */
  lemma AlignedText(s: string, width: nat, left: bool)
    ensures var t := Aligned(s, width, left);
      && |t| == (if |s| < width then width else |s|)
      && (if left then t[..|s|] == s && forall i :: |s| <= i < |t| ==> t[i] == ' '
          else t[|t| - |s|..] == s && forall i :: 0 <= i < |t| - |s| ==> t[i] == ' ')
  {
    PadLength(width - |s|, ' ');
  }

  /** Zero padding of an unsigned number does not change the number it denotes. */
  lemma {:induction false} ZeroPadValue(num: string, n: nat, base: nat)
    requires 2 <= base
    ensures Value(Pad(n, '0') + num, base) == Value(num, base)
    decreases |num|, n
  {
    var s := Pad(n, '0') + num;
    if num == [] {
      if n > 0 {
        ZeroPadValue(num, n - 1, base);
        assert s[..n - 1] == Pad(n - 1, '0') + num;
      } else {
        assert s == [];
      }
    } else {
      ZeroPadValue(num[..|num| - 1], n, base);
      assert s[..|s| - 1] == Pad(n, '0') + num[..|num| - 1];
    }
  }

  /** A padded number is exactly as wide as asked, or as long as it needs. Zeros stand behind the
      sign and leave the magnitude as it is; blanks stand in front of the sign. */
  lemma PaddedNumber(v: int, width: nat, zero: bool)
    ensures var u, sign := if v < 0 then -v else v, if v < 0 then "-" else "";
      var num, s := Numeral(u, 10, false), Padded(Numeral(u, 10, false), width, zero, v < 0);
      var gap := |s| - |sign| - |num|;
      && |s| == (if |sign| + |num| < width then width else |sign| + |num|)
      && (if zero then s[..|sign|] == sign && Value(s[|sign|..], 10) == u
          else (forall i :: 0 <= i < gap ==> s[i] == ' ') && s[gap..] == sign + num)
  {
    hide Numeral, Value;
    var u: nat, sign := if v < 0 then -v else v, if v < 0 then "-" else "";
    var num, s := Numeral(u, 10, false), Padded(Numeral(u, 10, false), width, zero, v < 0);
    var gap: nat := if width > |sign| + |num| then width - |sign| - |num| else 0;
    NumeralValue(u, 10, false);
    ZeroPadValue(num, gap, 10);
    if zero {
      assert s[|sign|..] == Pad(gap, '0') + num;
    } else {
      assert s[gap..] == sign + num;
    }
  }

  // ---- what each conversion prints ----

  /** n copies of c, or nothing. */
  function Fill(n: int, c: char): (s: string)
    ensures |s| == (if n > 0 then n else 0) && forall i :: 0 <= i < |s| ==> s[i] == c
  {
    if n <= 0 then "" else seq(n, _ => c)
  }

  /** The text of a number: its digits in the right base and case, without leading zero and with
      the right value; its sign; zeros between them, or blanks before them, up to the width. */
  ghost predicate ShowsNumber(text: string, digits: string, v: int, base: nat, upper: bool, width: nat, zero: bool)
    requires 2 <= base <= 16
  {
    var sign := if v < 0 then "-" else "";
    var gap := width - |sign| - |digits|;
    && Canonical(digits, base, upper) && Value(digits, base) == (if v < 0 then -v else v)
    && text == if zero then sign + Fill(gap, '0') + digits else Fill(gap, ' ') + sign + digits
  }

  lemma ShowsPadded(v: int, base: nat, upper: bool, width: nat, zero: bool)
    requires base == 10 || base == 16
    ensures var digits := Numeral(if v < 0 then -v else v, base, upper);
      ShowsNumber(Padded(digits, width, zero, v < 0), digits, v, base, upper, width, zero)
  {
    hide Numeral, Canonical, Value;
    var u: nat := if v < 0 then -v else v;
    NumeralCanonical(u, base, upper);
    NumeralValue(u, base, upper);
    var gap := width - |Numeral(u, base, upper)| - (if v < 0 then 1 else 0);
    assert Fill(gap, '0') == Pad(gap, '0') && Fill(gap, ' ') == Pad(gap, ' ');
  }

  /** %d and %i print the number in decimal with its sign, %u in decimal, %x and %X in lower-case
      and upper-case hexadecimal. */
  lemma NumberText(d: Directive, a: Arg) returns (digits: string)
    requires d.spec in "diuxX" && Fits(d.spec, a)
    ensures ShowsNumber(Render(d, a), digits, if a.Signed? then a.v else a.u,
                        if d.spec == 'x' || d.spec == 'X' then 16 else 10, d.spec == 'X', d.width, d.zero)
  {
    hide ShowsNumber, Numeral, Padded;
    match a
    case Signed(v) =>
      digits := Numeral(if v < 0 then -v else v, 10, false);
      ShowsPadded(v, 10, false, d.width, d.zero);
    case Unsigned(u) =>
      var base, upper := if d.spec == 'u' then 10 else 16, d.spec == 'X';
      digits := Numeral(u, base, upper);
      ShowsPadded(u, base, upper, d.width, d.zero);
  }

  /** %p prints "0x" and lower-case hexadecimal digits, whatever the width. */
  lemma PointerText(d: Directive, u: nat)
    requires d.spec == 'p' && u < WORD64
    ensures var t := Render(d, Unsigned(u));
      |t| > 2 && t[..2] == "0x" && Canonical(t[2..], 16, false) && Value(t[2..], 16) == u
  {
    hide Numeral, Canonical, Value;
    NumeralCanonical(u, 16, false);
    NumeralValue(u, 16, false);
    NumeralStart(u, 16, false);
    assert Render(d, Unsigned(u))[2..] == Numeral(u, 16, false);
  }

  /** %s and %c print the text, or "(null)" for none, with blanks up to the width behind it under
      the left flag and before it otherwise. */
  lemma TextText(d: Directive, a: Arg)
    requires (a.Text? || a.Char?) && Fits(d.spec, a)
    ensures var t := if a.Char? then [a.c] else if a.s == None then "(null)" else a.s.value;
      Render(d, a) == if d.left then t + Fill(d.width - |t|, ' ') else Fill(d.width - |t|, ' ') + t
  {
    var t := if a.Char? then [a.c] else if a.s == None then "(null)" else a.s.value;
    assert Fill(d.width - |t|, ' ') == Pad(d.width - |t|, ' ');
  }

  // ---- what a format prints ----

  lemma {:induction false} OutputShift(x: string, y: string, p: nat, args: seq<Arg>)
    requires p <= |y|
    ensures Matches(x + y, |x| + p, args) == Matches(y, p, args)
    ensures Matches(y, p, args) ==> Output(x + y, |x| + p, args) == Output(y, p, args)
    decreases |y| - p
  {
    hide Parse, Render, Fits, Plain;
    if p < |y| {
      if y[p] != '%' {
        OutputShift(x, y, p + 1, args);
      } else {
        ParseShift(x, y, p + 1);
        if Parse(y, p + 1).Found? {
          var next := Parse(y, p + 1).next;
          OutputShift(x, y, next, args);
          if args != [] { OutputShift(x, y, next, args[1..]); }
        }
      }
    }
  }

  /** Literal text is printed as it is. */
  lemma {:induction false} LiteralOutput(pre: string, fmt: string, args: seq<Arg>)
    requires (forall i :: 0 <= i < |pre| ==> pre[i] != '%') && Matches(fmt, 0, args)
    ensures Matches(pre + fmt, 0, args) && Output(pre + fmt, 0, args) == pre + Output(fmt, 0, args)
  {
    hide Parse, Render, Fits, Plain;
    if pre == "" { assert pre + fmt == fmt; } else {
      LiteralOutput(pre[1..], fmt, args);
      assert pre + fmt == [pre[0]] + (pre[1..] + fmt);
      OutputShift([pre[0]], pre[1..] + fmt, 0, args);
      assert pre == [pre[0]] + pre[1..];
    }
  }

  /** A directive behind literal text prints its argument and hands the rest of the arguments to
      the rest of the format. */
  lemma DirectiveOutput(pre: string, d: Directive, len: nat, post: string, a: Arg, rest: seq<Arg>)
    requires (forall i :: 0 <= i < |pre| ==> pre[i] != '%') && Plausible(d)
    requires d.spec in "scdiuxXp" && Fits(d.spec, a) && Matches(post, 0, rest)
    ensures var fmt := pre + ("%" + Written(d, len) + post);
      Matches(fmt, 0, [a] + rest) && Output(fmt, 0, [a] + rest) == pre + (Render(d, a) + Output(post, 0, rest))
  {
    hide Parse, Render, Fits, Plain, Written, Matches, Output;
    var x := "%" + Written(d, len);
    ParseWritten("%", d, len, post);
    OutputShift(x, post, 0, rest);
    OneDirective(x + post, d, |x|, a, rest);
    LiteralOutput(pre, x + post, [a] + rest);
  }

  lemma OneDirective(fmt: string, d: Directive, next: nat, a: Arg, rest: seq<Arg>)
    requires fmt != "" && fmt[0] == '%' && Parse(fmt, 1) == Found(d, next)
    requires d.spec in "scdiuxXp" && Fits(d.spec, a) && Matches(fmt, next, rest)
    ensures Matches(fmt, 0, [a] + rest) && Output(fmt, 0, [a] + rest) == Render(d, a) + Output(fmt, next, rest)
  {
    hide Parse, Render, Fits, Plain;
    assert ([a] + rest)[1..] == rest;
  }

  /** "%%" prints one percent sign; a conversion that is not known prints nothing; neither takes an
      argument. */
  lemma PlainOutput(pre: string, d: Directive, len: nat, post: string, args: seq<Arg>)
    requires (forall i :: 0 <= i < |pre| ==> pre[i] != '%') && Plausible(d)
    requires d.spec !in "scdiuxXp" && Matches(post, 0, args)
    ensures var fmt := pre + ("%" + Written(d, len) + post);
      && Matches(fmt, 0, args)
      && Output(fmt, 0, args) == pre + ((if d.spec == '%' then "%" else "") + Output(post, 0, args))
  {
    hide Parse, Render, Fits, Written, Matches, Output;
    var x := "%" + Written(d, len);
    ParseWritten("%", d, len, post);
    OutputShift(x, post, 0, args);
    OnePlain(x + post, d, |x|, args);
    LiteralOutput(pre, x + post, args);
  }

  lemma OnePlain(fmt: string, d: Directive, next: nat, args: seq<Arg>)
    requires fmt != "" && fmt[0] == '%' && Parse(fmt, 1) == Found(d, next) && d.spec !in "scdiuxXp" && Matches(fmt, next, args)
    ensures Matches(fmt, 0, args)
    ensures Output(fmt, 0, args) == (if d.spec == '%' then "%" else "") + Output(fmt, next, args)
  {
    hide Parse, Render, Fits;
  }

  /** A format of literal text, with or without a lone percent sign at its end, prints the text. */
  lemma LiteralFormat(pre: string, args: seq<Arg>)
    requires forall i :: 0 <= i < |pre| ==> pre[i] != '%'
    ensures Matches(pre, 0, args) && Output(pre, 0, args) == pre
    ensures Matches(pre + "%", 0, args) && Output(pre + "%", 0, args) == pre
  {
    hide Render, Fits, Plain;
    LiteralOutput(pre, "", args);
    LiteralOutput(pre, "%", args);
    assert pre + "" == pre;
  }

  /** The format "%x" with 255 gives "ff". */
  lemma HexExample()
    ensures Matches("%x", 0, [Unsigned(255)]) && Output("%x", 0, [Unsigned(255)]) == "ff"
  {
    hide Parse, Render, Written, Output, Matches;
    var d := Directive(false, false, 0, 'x');
    HexWritten();
    EmptyFormat();
    DirectiveOutput("", d, 0, "", Unsigned(255), []);
    HexRendered();
    assert "" + ("%" + Written(d, 0) + "") == "%x" && [Unsigned(255)] + [] == [Unsigned(255)];
  }

  lemma EmptyFormat()
    ensures Matches("", 0, []) && Output("", 0, []) == ""
  {
  }

  lemma HexWritten()
    ensures Written(Directive(false, false, 0, 'x'), 0) == "x"
  {
  }

  lemma HexRendered()
    ensures Render(Directive(false, false, 0, 'x'), Unsigned(255)) == "ff"
  {
    assert Reversed(15, 16, false) == [Digit(15, false)] + Reversed(0, 16, false);
    assert Reversed(255, 16, false) == [Digit(15, false)] + Reversed(15, 16, false);
    assert "ff"[1..] == "f" && "f"[1..] == "";
    assert Backwards("f") == Backwards("") + ['f'];
    assert Backwards("ff") == Backwards("f") + ['f'];
  }

  predicate Numeric(spec: char) {
    spec in "diuxX"
  }

  /** The number alone, with no width. */
  function Bare(spec: char, a: Arg): string
    requires Numeric(spec) && Fits(spec, a)
  {
    Render(Directive(false, false, 0, spec), a)
  }

  /** Blank padding is right alignment of the signed number. */
  lemma BlankPadding(num: string, width: nat, negative: bool)
    requires num != [] && num[0] != ' '
    ensures var s := Padded(num, 0, false, negative);
      && s != [] && s[0] != ' ' && Padded(num, width, false, negative) == Aligned(s, width, false)
  {
    var sign := if negative then "-" else "";
    assert Padded(num, 0, false, negative) == sign + num;
    assert Pad(width - |num| - |sign|, ' ') + sign + num == Pad(width - |sign + num|, ' ') + (sign + num);
  }

  lemma BareShape(spec: char, a: Arg, width: nat)
    requires Numeric(spec) && Fits(spec, a)
    ensures Bare(spec, a) != [] && Bare(spec, a)[0] != ' '
    ensures Render(Directive(false, true, width, spec), a) == Aligned(Bare(spec, a), width, false)
  {
    hide Numeral, Padded, Aligned;
    match a
    case Signed(v) =>
      var u := if v < 0 then -v else v;
      NumeralStart(u, 10, false);
      BlankPadding(Numeral(u, 10, false), width, v < 0);
    case Unsigned(u) =>
      var base, upper := if spec == 'u' then 10 else 16, spec == 'X';
      NumeralStart(u, base, upper);
      BlankPadding(Numeral(u, base, upper), width, false);
  }

  lemma NumeralStart(v: nat, base: nat, upper: bool)
    requires 2 <= base <= 16
    ensures Numeral(v, base, upper) != [] && Numeral(v, base, upper)[0] != ' '
  {
    hide Numeral;
    NumeralCanonical(v, base, upper);
    assert IsOwnDigit(Numeral(v, base, upper)[0], base, upper);
  }

  /** A number under the left flag still gets its blanks in front, so it is left-aligned exactly
      when the width leaves nothing to pad. */
  lemma LeftFlagOnNumbers(spec: char, a: Arg, width: nat)
    requires Numeric(spec) && Fits(spec, a)
    ensures Render(Directive(false, true, width, spec), a) == Aligned(Bare(spec, a), width, false)
    ensures Render(Directive(false, true, width, spec), a) == Aligned(Bare(spec, a), width, true)
      <==> width <= |Bare(spec, a)|
  {
    hide Render, Bare;
    BareShape(spec, a, width);
    if width > |Bare(spec, a)| {
      assert Aligned(Bare(spec, a), width, false)[0] == ' ';
      assert Aligned(Bare(spec, a), width, true)[0] == Bare(spec, a)[0];
    }
  }

  /** The format "%-2u" with 7 puts the blank in front. */
  lemma LeftFlagExample()
    ensures Matches("%-2u", 0, [Unsigned(7)]) && Output("%-2u", 0, [Unsigned(7)]) == " 7"
  {
    hide Parse, Render;
    LeftFlagParsed();
    LeftFlagRendered();
    var args := [Unsigned(7)];
    assert args[1..] == [];
    assert Output("%-2u", 4, args[1..]) == "";
  }

  lemma LeftFlagParsed()
    ensures Parse("%-2u", 1) == Found(Directive(false, true, 2, 'u'), 4)
  {
  }

  lemma LeftFlagRendered()
    ensures Render(Directive(false, true, 2, 'u'), Unsigned(7)) == " 7"
  {
    assert Reversed(7, 10, false) == [Digit(7, false)];
    assert Numeral(7, 10, false) == "7";
    assert Pad(1, ' ') == " ";
  }

  // ---- the programs ----

  /** Digits of a positive value into the scratch, least significant first. */
  method FillDigits(tmp: array<char>, val: nat, base: nat, upper: bool) returns (i: nat)
    requires tmp.Length == SCRATCH && 0 < val < WORD64 && (base == 10 || base == 16)
    modifies tmp
    ensures i <= SCRATCH && tmp[..i] == Reversed(val, base, upper)
  {
    hide Digit, Power, Reversed, Numeral;
    NumeralFits(val, base, upper);
    var v: nat := val;
    i := 0;
    while v > 0
      invariant i < SCRATCH && Reversed(val, base, upper) == tmp[..i] + Reversed(v, base, upper)
    {
      ReversedStep(v, base, upper);
      ghost var before, more := tmp[..i], Reversed(v / base, base, upper);
      var d := Digit(v % base, upper);
      tmp[i] := d;
      assert tmp[..i + 1] == before + [d];
      assert before + ([d] + more) == before + [d] + more;
      v := v / base;
      i := i + 1;
    }
    ReversedZero(base, upper);
  }

  /** Copies the first i scratch characters out in reverse. */
  method Unwind(tmp: array<char>, count: nat) returns (s: string)
    requires count <= tmp.Length
    ensures s == Backwards(tmp[..count])
  {
    ghost var digits := tmp[..count];
    var i := count;
    s := "";
    assert digits[..count] == digits;
    while i > 0
      invariant 0 <= i <= count && Backwards(digits) == s + Backwards(digits[..i])
    {
      i := i - 1;
      BackwardsLast(digits[..i + 1]);
      assert digits[..i + 1][..i] == digits[..i];
      s := s + [tmp[i]];
    }
  }

  /** `u64_to_str`: digits into a 32-byte scratch, then reversed. */
  method NumberToString(val: nat, base: nat, upper: bool) returns (s: string)
    requires val < WORD64 && (base == 10 || base == 16)
    ensures s == Numeral(val, base, upper)
  {
    hide Reversed;
    var tmp := new char[SCRATCH](_ => '\0');
    if val == 0 {
      tmp[0] := '0';
      s := Unwind(tmp, 1);
      assert tmp[..1] == "0" && "0"[1..] == "";
      assert Backwards("0") == Backwards("") + ['0'];
    } else {
      var i := FillDigits(tmp, val, base, upper);
      s := Unwind(tmp, i);
    }
  }

  lemma {:induction false} BackwardsLast(s: string)
    requires s != []
    ensures Backwards(s) == [s[|s| - 1]] + Backwards(s[..|s| - 1])
  {
    if |s| > 1 {
      BackwardsLast(s[1..]);
      assert s[..|s| - 1][1..] == s[1..][..|s| - 2];
    }
  }

  /** The first characters of `text` that the buffer takes are in it. */
  ghost predicate Holds(buf: seq<char>, bufsz: nat, n: nat, text: string) {
    n == Min(|text|, bufsz - 1) && n < |buf| && buf[..n] == text[..n]
  }

  lemma HoldsMore(buf: seq<char>, bufsz: nat, n: nat, text: string, more: string)
    requires 1 <= bufsz <= |buf| && Holds(buf, bufsz, n, text) && (n == bufsz - 1 || more == "")
    ensures Holds(buf, bufsz, n, text + more)
  {
    assert (text + more)[..n] == text[..n];
  }

  /** Appends text while there is room, as every guarded store of the formatter does. */
  method Emit(buf: array<char>, bufsz: nat, n: nat, text: string, ghost done: string) returns (m: nat)
    requires 1 <= bufsz <= buf.Length && Holds(buf[..], bufsz, n, done)
    modifies buf
    ensures Holds(buf[..], bufsz, m, done + text)
    ensures m < bufsz && forall k :: bufsz <= k < buf.Length ==> buf[k] == old(buf[k])
  {
    m := n;
    var k := 0;
    while k < |text| && m < bufsz - 1
      invariant 0 <= k <= |text| && Holds(buf[..], bufsz, m, done + text[..k])
      invariant forall j :: bufsz <= j < buf.Length ==> buf[j] == old(buf[j])
    {
      ghost var before := buf[..m];
      buf[m] := text[k];
      assert buf[..m + 1] == before + [text[k]];
      assert done + text[..k + 1] == (done + text[..k]) + [text[k]];
      m := m + 1;
      k := k + 1;
    }
    HoldsMore(buf[..], bufsz, m, done + text[..k], text[k..]);
    assert done + text == (done + text[..k]) + text[k..];
  }

  method EmitNumber(buf: array<char>, bufsz: nat, n: nat, num: string, width: nat, zero: bool, negative: bool, ghost done: string)
    returns (m: nat)
    requires 1 <= bufsz <= buf.Length && Holds(buf[..], bufsz, n, done)
    modifies buf
    ensures Holds(buf[..], bufsz, m, done + Padded(num, width, zero, negative))
    ensures m < bufsz && forall k :: bufsz <= k < buf.Length ==> buf[k] == old(buf[k])
  {
    hide Holds, Pad;
    var sign := if negative then "-" else "";
    var total := |num| + |sign|;
    var padlen := if width > total then width - total else 0;
    PadSame(width - |num| - |sign|, padlen, if zero then '0' else ' ');
    if zero {
      m := Emit(buf, bufsz, n, sign, done);
      m := Emit(buf, bufsz, m, Pad(padlen, '0'), done + sign);
      m := Emit(buf, bufsz, m, num, done + sign + Pad(padlen, '0'));
      assert done + sign + Pad(padlen, '0') + num == done + (sign + Pad(padlen, '0') + num);
    } else {
      m := Emit(buf, bufsz, n, Pad(padlen, ' '), done);
      m := Emit(buf, bufsz, m, sign, done + Pad(padlen, ' '));
      m := Emit(buf, bufsz, m, num, done + Pad(padlen, ' ') + sign);
      assert done + Pad(padlen, ' ') + sign + num == done + (Pad(padlen, ' ') + sign + num);
    }
  }

  lemma PadSame(a: int, b: int, c: char)
    requires a == b || (a <= 0 && b <= 0)
    ensures Pad(a, c) == Pad(b, c)
  {
  }

  method EmitAligned(buf: array<char>, bufsz: nat, n: nat, s: string, width: nat, left: bool, ghost done: string) returns (m: nat)
    requires 1 <= bufsz <= buf.Length && Holds(buf[..], bufsz, n, done)
    modifies buf
    ensures Holds(buf[..], bufsz, m, done + Aligned(s, width, left))
    ensures m < bufsz && forall k :: bufsz <= k < buf.Length ==> buf[k] == old(buf[k])
  {
    hide Holds, Pad;
    if left {
      m := Emit(buf, bufsz, n, s, done);
      m := Emit(buf, bufsz, m, Pad(width - |s|, ' '), done + s);
      assert done + s + Pad(width - |s|, ' ') == done + (s + Pad(width - |s|, ' '));
    } else {
      m := Emit(buf, bufsz, n, Pad(width - |s|, ' '), done);
      m := Emit(buf, bufsz, m, s, done + Pad(width - |s|, ' '));
      assert done + Pad(width - |s|, ' ') + s == done + (Pad(width - |s|, ' ') + s);
    }
  }

  method EmitArg(buf: array<char>, bufsz: nat, n: nat, d: Directive, a: Arg, ghost done: string) returns (m: nat)
    requires 1 <= bufsz <= buf.Length && Holds(buf[..], bufsz, n, done) && Fits(d.spec, a)
    modifies buf
    ensures Holds(buf[..], bufsz, m, done + Render(d, a))
    ensures m < bufsz && forall k :: bufsz <= k < buf.Length ==> buf[k] == old(buf[k])
  {
    hide Holds, Numeral, Padded, Aligned;
    match a
    case Text(s) =>
      m := EmitAligned(buf, bufsz, n, if s.None? then "(null)" else s.value, d.width, d.left, done);
    case Char(c) =>
      m := EmitAligned(buf, bufsz, n, [c], d.width, d.left, done);
    case Signed(v) =>
      var num := NumberToString(if v < 0 then -v else v, 10, false);
      m := EmitNumber(buf, bufsz, n, num, d.width, d.zero, v < 0, done);
    case Unsigned(u) =>
      if d.spec == 'u' {
        var num := NumberToString(u, 10, false);
        m := EmitNumber(buf, bufsz, n, num, d.width, d.zero, false, done);
      } else if d.spec == 'p' {
        var num := NumberToString(u, 16, false);
        m := Emit(buf, bufsz, n, "0x", done);
        m := Emit(buf, bufsz, m, num, done + "0x");
        assert done + "0x" + num == done + ("0x" + num);
      } else {
        var num := NumberToString(u, 16, d.spec == 'X');
        m := EmitNumber(buf, bufsz, n, num, d.width, d.zero, false, done);
      }
  }

  method ParseDirective(fmt: string, p: nat) returns (r: Parsed)
    requires p <= |fmt|
    ensures r == Parse(fmt, p)
  {
    hide Number, FlagsEnd, WidthEnd;
    if p == |fmt| { return Ends; }
    var zero, left, f := ParseFlags(fmt, p);
    if left { zero := false; }
    var width, q := ParseWidth(fmt, f);
    if q < |fmt| && fmt[q] == 'l' {
      if q + 1 < |fmt| && fmt[q + 1] == 'l' { q := q + 1; }
      q := q + 1;
      if q == |fmt| { return Ends; }
    } else if q == |fmt| {
      return Overruns;
    }
    return Found(Directive(zero, left, width, fmt[q]), q + 1);
  }

  method ParseFlags(fmt: string, p: nat) returns (zero: bool, left: bool, f: nat)
    requires p <= |fmt|
    ensures f == FlagsEnd(fmt, p) && left == ('-' in fmt[p..f]) && zero == ('0' in fmt[p..f])
  {
    zero, left, f := false, false, p;
    while f < |fmt| && IsFlag(fmt[f])
      invariant p <= f <= |fmt| && FlagsEnd(fmt, p) == FlagsEnd(fmt, f)
      invariant left == ('-' in fmt[p..f]) && zero == ('0' in fmt[p..f])
    {
      assert fmt[p..f + 1] == fmt[p..f] + [fmt[f]];
      if fmt[f] == '0' { zero := true; }
      if fmt[f] == '-' { left := true; }
      f := f + 1;
    }
  }

  method ParseWidth(fmt: string, f: nat) returns (width: nat, q: nat)
    requires f <= |fmt|
    ensures q == WidthEnd(fmt, f) && (forall i :: f <= i < q ==> IsDigit(fmt[i])) && width == Number(fmt, f, q)
  {
    width, q := 0, f;
    while q < |fmt| && IsDigit(fmt[q])
      invariant f <= q <= |fmt| && WidthEnd(fmt, f) == WidthEnd(fmt, q)
      invariant (forall i :: f <= i < q ==> IsDigit(fmt[i])) && width == Number(fmt, f, q)
    {
      width := width * 10 + (fmt[q] as int - '0' as int);
      q := q + 1;
    }
  }

  /** `vkformat_buf`: the buffer gets the first bufsz - 1 characters of the unbounded text
      and a terminator, for every matching format and every buffer size. */
  method FormatInto(buf: array<char>, bufsz: nat, fmt: string, args: seq<Arg>) returns (n: nat)
    requires 1 <= bufsz <= buf.Length && Matches(fmt, 0, args)
    modifies buf
    ensures var out := Output(fmt, 0, args);
      n == Min(|out|, bufsz - 1) && buf[..n] == out[..n] && buf[n] == '\0'
    ensures forall k :: bufsz <= k < buf.Length ==> buf[k] == old(buf[k])
  {
    hide Holds, Parse, Render, Fits, Output, Matches, Plain;
    ghost var done, all := "", Output(fmt, 0, args);
    var p, rest := 0, args;
    n := 0;
    HoldsNothing(buf[..], bufsz);
    while p < |fmt| && n < bufsz - 1
      invariant p <= |fmt| && Matches(fmt, p, rest) && n < bufsz
      invariant all == done + Output(fmt, p, rest)
      invariant Holds(buf[..], bufsz, n, done)
      invariant forall k :: bufsz <= k < buf.Length ==> buf[k] == old(buf[k])
      decreases |fmt| - p
    {
      if fmt[p] != '%' {
        LiteralStep(fmt, p, rest);
        n := Emit(buf, bufsz, n, [fmt[p]], done);
        assert done + ([fmt[p]] + Output(fmt, p + 1, rest)) == done + [fmt[p]] + Output(fmt, p + 1, rest);
        done := done + [fmt[p]];
        p := p + 1;
      } else {
        var r := ParseDirective(fmt, p + 1);
        if r.Ends? { break; }
        DirectiveStep(fmt, p, rest);
        if TakesArg(r.d.spec) {
          ghost var before := done;
          n := EmitArg(buf, bufsz, n, r.d, rest[0], done);
          done := done + Render(r.d, rest[0]);
          assert before + (Render(r.d, rest[0]) + Output(fmt, r.next, rest[1..])) == done + Output(fmt, r.next, rest[1..]);
          rest := rest[1..];
        } else {
          ghost var before := done;
          n := Emit(buf, bufsz, n, Plain(r.d.spec), done);
          done := done + Plain(r.d.spec);
          assert before + (Plain(r.d.spec) + Output(fmt, r.next, rest)) == done + Output(fmt, r.next, rest);
        }
        p := r.next;
      }
    }
    FinishFormat(buf[..], bufsz, n, done, fmt, p, rest);
    buf[n] := '\0';
    assert all[..n] == buf[..n];
  }

  lemma LiteralStep(fmt: string, p: nat, args: seq<Arg>)
    requires p < |fmt| && Matches(fmt, p, args) && fmt[p] != '%'
    ensures Matches(fmt, p + 1, args) && Output(fmt, p, args) == [fmt[p]] + Output(fmt, p + 1, args)
  {
  }

  lemma DirectiveStep(fmt: string, p: nat, args: seq<Arg>)
    requires p < |fmt| && Matches(fmt, p, args) && fmt[p] == '%' && !Parse(fmt, p + 1).Ends?
    ensures var r := Parse(fmt, p + 1);
      && r.Found?
      && if TakesArg(r.d.spec) then
           && args != [] && Fits(r.d.spec, args[0]) && Matches(fmt, r.next, args[1..])
           && Output(fmt, p, args) == Render(r.d, args[0]) + Output(fmt, r.next, args[1..])
         else Matches(fmt, r.next, args) && Output(fmt, p, args) == Plain(r.d.spec) + Output(fmt, r.next, args)
  {
    hide Parse, Render, Fits, Plain;
  }

  lemma HoldsNothing(buf: seq<char>, bufsz: nat)
    requires 1 <= bufsz <= |buf|
    ensures Holds(buf, bufsz, 0, "")
  {
  }

  /** At the end of the loop: the format is exhausted, or the buffer is full. */
  lemma FinishFormat(buf: seq<char>, bufsz: nat, n: nat, done: string, fmt: string, p: nat, rest: seq<Arg>)
    requires 1 <= bufsz <= |buf| && p <= |fmt| && Matches(fmt, p, rest) && Holds(buf, bufsz, n, done)
    requires p == |fmt| || n == bufsz - 1 || (fmt[p] == '%' && Parse(fmt, p + 1).Ends?)
    ensures var all := done + Output(fmt, p, rest);
      n == Min(|all|, bufsz - 1) && n < |buf| && buf[..n] == all[..n]
  {
    hide Parse, Render, Fits, Plain;
    HoldsMore(buf, bufsz, n, done, Output(fmt, p, rest));
  }
}
