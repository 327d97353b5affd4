/** The string utilities of src/strings.c: hexadecimal rendering built up
    nibble -> byte -> word -> dword -> qword, the allocating formatter
    `M_vsprintf` with its `%u`, `%h` and `%s` conversions and width rule,
    `strlen`, `M_append` and the decimal parser `dstoui`.

    A C string is modelled as a `seq<char>` that holds a NUL; its content is
    the part before the first NUL. Text that the formatter produces or
    copies (its format, `%s` arguments, its result) is modelled by its
    content, a `seq<char>` without NUL. */
module Strings {
  import opened Machine
  import opened Arith

  const NUL: char := '\0'

  /** `ONE_E_19`: the weight of the first of the 20 decimal digits. */
  const ONE_E_19: nat := 10_000_000_000_000_000_000

  // ---------------------------------------------------------------------
  // Hexadecimal

  predicate IsHexDigit(c: char) {
    '0' <= c <= '9' || 'A' <= c <= 'F'
  }

  /** Value of one hexadecimal digit. */
  function HexDigitValue(c: char): nat {
    if '0' <= c <= '9' then c as nat - '0' as nat
    else if 'A' <= c <= 'F' then c as nat - 'A' as nat + 10
    else 0
  }

  /** Value of a string of digits in base `base`, most significant first. */
  function ValueOf(s: seq<char>, base: nat): nat
    decreases |s|
  {
    if s == [] then 0 else ValueOf(s[..|s| - 1], base) * base + HexDigitValue(s[|s| - 1])
  }

  /** Every character of `s` is a digit of `base`. */
  predicate DigitsBelow(s: seq<char>, base: nat) {
    forall i :: 0 <= i < |s| ==> IsHexDigit(s[i]) && HexDigitValue(s[i]) < base
  }

  /** The `nibbleToHex` macro: applied to `'0' + v` for a nibble `v`, it
      moves the values past '9' onto 'A'..'F'. */
  function NibbleToHex(n: char): (r: char)
    requires '0' <= n < (('0' as int) + 16) as char
    ensures IsHexDigit(r)
    ensures HexDigitValue(r) == n as nat - '0' as nat
  {
    if n > '9' then (n as int + 'A' as int - '9' as int - 1) as char else n
  }

  /** The digit for nibble `v`: `nibbleToHex(v + '0')`. */
  function HexDigit(v: nat): (r: char)
    requires v < 16
    ensures IsHexDigit(r) && HexDigitValue(r) == v
  {
    NibbleToHex((v + '0' as int) as char)
  }

  /** `byteToHex`: high nibble first. */
  function ByteToHex(b: nat): seq<char>
    requires b < 256
  {
    [HexDigit(b / 16), HexDigit(b % 16)]
  }

  /** `wordToHex`: the high byte `(uint8_t) (w >> 8)`, then the low byte `(uint8_t) w`. */
  function WordToHex(w: nat): seq<char>
    requires w < U16
  {
    ByteToHex(w / 256) + ByteToHex(w % 256)
  }

  /** `dwordToHex`: the high word, then the low word. */
  function DwordToHex(d: nat): seq<char>
    requires d < U32
  {
    WordToHex(d / U16) + WordToHex(d % U16)
  }

  /** `qwordToHex`: the high dword, then the low dword. */
  function QwordToHex(q: nat): seq<char>
    requires q < U64
  {
    DwordToHex(q / U32) + DwordToHex(q % U32)
  }


  /** Reading a concatenation: the digits of `s` are shifted by `|t|` places. */
  lemma {:induction false} ValueAppend(s: seq<char>, t: seq<char>, base: nat)
    ensures ValueOf(s + t, base) == ValueOf(s, base) * Pow(base, |t|) + ValueOf(t, base)
    decreases |t|
  {
    if t == [] {
      assert s + t == s;
    } else {
      var t' := t[..|t| - 1];
      assert (s + t)[..|s + t| - 1] == s + t';
      ValueAppend(s, t', base);
      var d := HexDigitValue(t[|t| - 1]);
      var a, p, b := ValueOf(s, base), Pow(base, |t'|), ValueOf(t', base);
      assert ValueOf(s + t, base) == ValueOf(s + t', base) * base + d;
      assert ValueOf(t, base) == b * base + d;
      assert Pow(base, |t|) == p * base;
      ShiftDigit(a, p, b, d, base);
    }
  }

  lemma ShiftDigit(a: int, p: int, b: int, d: int, base: int)
    ensures (a * p + b) * base + d == a * (p * base) + (b * base + d)
  {
  }

  /** `n` digits of `base` stand for a number below `base^n`. */
  lemma {:induction false} ValueBound(s: seq<char>, base: nat)
    requires base > 0 && DigitsBelow(s, base)
    ensures ValueOf(s, base) < Pow(base, |s|)
    decreases |s|
  {
    if s != [] {
      var s' := s[..|s| - 1];
      ValueBound(s', base);
      var v, p, d := ValueOf(s', base), Pow(base, |s'|), HexDigitValue(s[|s| - 1]);
      assert ValueOf(s, base) == v * base + d;
      assert Pow(base, |s|) == base * p;
      NextDigitBound(v, p, d, base);
      assert v * base + d < base * p;
    }
  }

  lemma NextDigitBound(v: int, p: int, d: int, base: int)
    requires 0 <= v < p && 0 <= d < base
    ensures v * base + d < base * p
  {
    assert p * base - v * base == (p - v) * base;
    MulAtLeast(p - v, base);
  }

  /** The last `w` digits of a numeral stand for its value modulo `base^w`. */
  lemma SuffixValue(s: seq<char>, w: nat, base: nat)
    requires base > 0 && w <= |s| && DigitsBelow(s, base)
    ensures ValueOf(s[|s| - w..], base) == ValueOf(s, base) % Pow(base, w)
  {
    var hi, lo := s[..|s| - w], s[|s| - w..];
    assert s == hi + lo;
    ValueAppend(hi, lo, base);
    ValueBound(lo, base);
    DivModUnique(ValueOf(s, base), Pow(base, w), ValueOf(hi, base), ValueOf(lo, base));
  }

  /** Leading zeros do not change a numeral's value. */
  lemma ZerosValue(n: nat, t: seq<char>, base: nat)
    ensures ValueOf(Zeros(n) + t, base) == ValueOf(t, base)
  {
    ZerosAreZero(n, base);
    ValueAppend(Zeros(n), t, base);
  }

  lemma {:induction false} ZerosAreZero(n: nat, base: nat)
    ensures ValueOf(Zeros(n), base) == 0
  {
    if n > 0 {
      assert Zeros(n)[..n - 1] == Zeros(n - 1);
      ZerosAreZero(n - 1, base);
    }
  }

  /** `n` characters '0'. */
  function Zeros(n: nat): (r: seq<char>)
    ensures |r| == n && forall i :: 0 <= i < n ==> r[i] == '0'
  {
    seq(n, _ => '0')
  }

  /** Two digits, high nibble first, '0'-'9' and upper-case 'A'-'F'; read back they give `b`. */
  lemma ByteToHexSpec(b: nat)
    requires b < 256
    ensures |ByteToHex(b)| == 2 && DigitsBelow(ByteToHex(b), 16)
    ensures HexDigitValue(ByteToHex(b)[0]) == b / 16 && HexDigitValue(ByteToHex(b)[1]) == b % 16
    ensures ValueOf(ByteToHex(b), 16) == b
  {
    var s := ByteToHex(b);
    assert s[..1] == [s[0]];
    assert ValueOf(s, 16) == ValueOf([s[0]], 16) * 16 + HexDigitValue(s[1]);
  }

  lemma WordToHexSpec(w: nat)
    requires w < U16
    ensures |WordToHex(w)| == 4 && DigitsBelow(WordToHex(w), 16) && ValueOf(WordToHex(w), 16) == w
  {
    var hi, lo := w / 256, w % 256;
    ByteToHexSpec(hi);
    ByteToHexSpec(lo);
    HexPowers();
    JoinHalves(ByteToHex(hi), ByteToHex(lo), 256);
    assert hi * 256 + lo == w;
  }

  lemma DwordToHexSpec(d: nat)
    requires d < U32
    ensures |DwordToHex(d)| == 8 && DigitsBelow(DwordToHex(d), 16) && ValueOf(DwordToHex(d), 16) == d
  {
    var hi, lo := d / U16, d % U16;
    WordToHexSpec(hi);
    WordToHexSpec(lo);
    HexPowers();
    JoinHalves(WordToHex(hi), WordToHex(lo), U16);
    assert hi * U16 + lo == d;
  }

  /** `qwordToHex` writes 16 upper-case hexadecimal digits, most significant
      first; read back in base 16 they give the input. */
  lemma QwordToHexRoundTrip(q: nat)
    requires q < U64
    ensures |QwordToHex(q)| == 16 && DigitsBelow(QwordToHex(q), 16)
    ensures ValueOf(QwordToHex(q), 16) == q
  {
    var hi, lo := q / U32, q % U32;
    DwordToHexSpec(hi);
    DwordToHexSpec(lo);
    HexPowers();
    JoinHalves(DwordToHex(hi), DwordToHex(lo), U32);
    assert hi * U32 + lo == q;
  }

  /** The powers of 16 that the hexadecimal halves are weighted by. */
  lemma HexPowers()
    ensures Pow(16, 2) == 256 && Pow(16, 4) == U16 && Pow(16, 8) == U32
  {
    PowAdd(16, 2, 2);
    PowAdd(16, 4, 4);
  }

  /** Two hexadecimal numerals side by side: the first is weighted by
      `16^|lo|`. */
  lemma JoinHalves(hi: seq<char>, lo: seq<char>, p: nat)
    requires DigitsBelow(hi, 16) && DigitsBelow(lo, 16) && Pow(16, |lo|) == p
    ensures DigitsBelow(hi + lo, 16)
    ensures ValueOf(hi + lo, 16) == ValueOf(hi, 16) * p + ValueOf(lo, 16)
  {
    ValueAppend(hi, lo, 16);
  }

  // ---------------------------------------------------------------------
  // Decimal

  predicate IsDecDigit(c: char) {
    '0' <= c <= '9'
  }

  /** The character `v + '0'` for a decimal digit `v`. */
  function DecimalDigit(v: nat): (r: char)
    requires v < 10
    ensures IsDecDigit(r) && HexDigitValue(r) == v
  {
    (v + '0' as int) as char
  }

  /** The `n` low-order decimal digits of `u`, most significant first. */
  function Digits(u: nat, n: nat): (r: seq<char>)
    ensures |r| == n
  {
    if n == 0 then [] else Digits(u / 10, n - 1) + [DecimalDigit(u % 10)]
  }

  /** `n` decimal digits of `u` read back give `u` modulo `10^n`. */
  lemma {:induction false} DigitsValue(u: nat, n: nat)
    ensures DigitsBelow(Digits(u, n), 10)
    ensures forall i :: 0 <= i < n ==> IsDecDigit(Digits(u, n)[i])
    ensures ValueOf(Digits(u, n), 10) == u % Pow(10, n)
  {
    if n > 0 {
      DigitsValue(u / 10, n - 1);
      var r := Digits(u, n);
      assert r[..n - 1] == Digits(u / 10, n - 1);
      DivDiv(u, 10, Pow(10, n - 1));
      assert Pow(10, n) == 10 * Pow(10, n - 1);
    }
  }

  /** Digit `j` of `Digits(u, n)` is the digit of weight `10^(n-1-j)`. */
  lemma {:induction false} DigitAt(u: nat, n: nat, j: nat)
    requires j < n
    ensures Digits(u, n)[j] == DecimalDigit(u / Pow(10, n - 1 - j) % 10)
  {
    if j < n - 1 {
      DigitAt(u / 10, n - 1, j);
      DivDiv(u, 10, Pow(10, n - 2 - j));
      assert Pow(10, n - 1 - j) == 10 * Pow(10, n - 2 - j);
    }
  }

  lemma PowTenNineteen()
    ensures Pow(10, 19) == ONE_E_19
  {
    assert Pow(10, 1) == 10;
    assert Pow(10, 2) == 100;
    assert Pow(10, 3) == 1000;
    assert Pow(10, 4) == 10000;
    assert Pow(10, 5) == 100000;
    assert Pow(10, 6) == 1000000;
    assert Pow(10, 7) == 10000000;
    assert Pow(10, 8) == 100000000;
    assert Pow(10, 9) == 1000000000;
    assert Pow(10, 10) == 10000000000;
    assert Pow(10, 11) == 100000000000;
    assert Pow(10, 12) == 1000000000000;
    assert Pow(10, 13) == 10000000000000;
    assert Pow(10, 14) == 100000000000000;
    assert Pow(10, 15) == 1000000000000000;
    assert Pow(10, 16) == 10000000000000000;
    assert Pow(10, 17) == 100000000000000000;
    assert Pow(10, 18) == 1000000000000000000;
    assert Pow(10, 19) == 10000000000000000000;
  }

  /** The 20 digits of a 64-bit value read back give the value itself. */
  lemma TwentyDigits(u: nat)
    requires u < U64
    ensures DigitsBelow(Digits(u, 20), 10)
    ensures ValueOf(Digits(u, 20), 10) == u
  {
    DigitsValue(u, 20);
    PowTenNineteen();
    var p := Pow(10, 20);
    assert p == 10 * Pow(10, 19);
    DivModUnique(u, p, 0, u);
  }

  /** The digit loop of the `%u` case (src/strings.c:107-117): `buf[0..20]`
      receives the 20 decimal digits of the 64-bit argument, most significant
      first, zero-padded; the terminator at `buf[20]` is left alone. */
  method DecimalInto(u: nat, buf: array<char>)
    requires u < U64 && buf.Length == 21
    modifies buf
    ensures buf[..20] == Digits(u, 20)
    ensures buf[20] == old(buf[20])
  {
    PowTenNineteen();
    assert Pow(10, 20) == 10 * ONE_E_19;
    var v := u;
    var e := ONE_E_19;
    for j := 0 to 20
      invariant j < 20 ==> e == Pow(10, 19 - j)
      invariant v == u % Pow(10, 20 - j)
      invariant forall k :: 0 <= k < j ==> buf[k] == DecimalDigit(u / Pow(10, 19 - k) % 10)
      invariant buf[20] == old(buf[20])
    {
      assert Pow(10, 20 - j) == e * 10;
      ModThenDiv(u, e, 10);
      var d := v / e;
      buf[j] := DecimalDigit(d);
      v := v % e;
      e := e / 10;
    }
    forall k | 0 <= k < 20
      ensures buf[k] == Digits(u, 20)[k]
    {
      DigitAt(u, 20, k);
    }
  }

  // ---------------------------------------------------------------------
  // Width

  /** The no-width rule of `%u`/`%h` (src/strings.c:133-134): skip leading
      '0's while another character follows. */
  function StripZeros(t: seq<char>): seq<char>
    decreases |t|
  {
    if |t| >= 2 && t[0] == '0' then StripZeros(t[1..]) else t
  }

  /** The width rule of `%u`/`%h` (src/strings.c:129-139): no width strips
      leading zeros; a width below the length keeps the rightmost `width`
      characters; otherwise `width - length` zeros are prefixed. */
  function ApplyWidth(t: seq<char>, width: int): seq<char> {
    if width < 0 then StripZeros(t)
    else if width < |t| then t[|t| - width..]
    else Zeros(width - |t|) + t
  }

  /** Stripping keeps at least one character, leaves no leading zero before
      another digit, and keeps the numeral's value. */
  lemma {:induction false} StripZerosSpec(t: seq<char>, base: nat)
    requires |t| >= 1 && DigitsBelow(t, base)
    ensures var r := StripZeros(t);
      1 <= |r| <= |t| && r == t[|t| - |r|..] && DigitsBelow(r, base) &&
      (|r| > 1 ==> r[0] != '0') && ValueOf(r, base) == ValueOf(t, base)
    decreases |t|
  {
    if |t| >= 2 && t[0] == '0' {
      StripZerosSpec(t[1..], base);
      assert t == Zeros(1) + t[1..];
      ZerosValue(1, t[1..], base);
    }
  }

  /** With a width `w`, the field has exactly `w` digits and stands for the
      value modulo `base^w` when `w` is below the length, for the value
      itself otherwise. */
  lemma WidthValue(t: seq<char>, w: nat, base: nat)
    requires base > 0 && DigitsBelow(t, base)
    ensures |ApplyWidth(t, w)| == w && DigitsBelow(ApplyWidth(t, w), base)
    ensures ValueOf(ApplyWidth(t, w), base) ==
      if w < |t| then ValueOf(t, base) % Pow(base, w) else ValueOf(t, base)
  {
    if w < |t| {
      SuffixValue(t, w, base);
    } else {
      ZerosValue(w - |t|, t, base);
    }
  }

  /** The text of `%u` for a 64-bit `u` with no width: decimal digits, at
      least one, no leading zero unless the value is 0 (rendered "0"), and
      read back they give `u`. */
  lemma UnpaddedDecimal(u: nat)
    requires u < U64
    ensures var r := ApplyWidth(Digits(u, 20), -1);
      1 <= |r| <= 20 && (forall i :: 0 <= i < |r| ==> IsDecDigit(r[i])) &&
      (|r| > 1 ==> r[0] != '0') && ValueOf(r, 10) == u &&
      (u == 0 ==> r == "0")
  {
    var t := Digits(u, 20);
    TwentyDigits(u);
    StripZerosSpec(t, 10);
    var r := StripZeros(t);
    DecimalDigits(r);
    if u == 0 {
      if |r| > 1 {
        LeadingDigitPositive(r);
      }
      assert |r| == 1;
      assert r[0] == '0';
    }
  }

  /** Digits below ten are decimal digits. */
  lemma DecimalDigits(r: seq<char>)
    requires DigitsBelow(r, 10)
    ensures forall i :: 0 <= i < |r| ==> IsDecDigit(r[i])
  {
  }

  /** A numeral of several digits whose first digit is not '0' is not zero. */
  lemma LeadingDigitPositive(r: seq<char>)
    requires |r| > 1 && DigitsBelow(r, 10) && r[0] != '0'
    ensures ValueOf(r, 10) > 0
  {
    assert r == [r[0]] + r[1..];
    ValueAppend([r[0]], r[1..], 10);
    assert ValueOf([r[0]], 10) == HexDigitValue(r[0]);
  }

  /** The text of `%u` with width `w`: exactly `w` decimal digits standing for
      `u` modulo `10^w` when `w < 20` (the rightmost `w` of the 20), for
      `u` itself otherwise (zero-padded); `%0u` is empty. */
  lemma WidthDecimal(u: nat, w: nat)
    requires u < U64
    ensures var r := ApplyWidth(Digits(u, 20), w);
      |r| == w && DigitsBelow(r, 10) &&
      ValueOf(r, 10) == if w < 20 then u % Pow(10, w) else u
  {
    TwentyDigits(u);
    WidthValue(Digits(u, 20), w, 10);
  }

  /** The text of `%h` with width `w`: exactly `w` upper-case hexadecimal
      digits standing for `q` modulo `16^w` when `w < 16`, for `q` itself
      otherwise; `%0h` is empty. */
  lemma WidthHex(q: nat, w: nat)
    requires q < U64
    ensures var r := ApplyWidth(QwordToHex(q), w);
      |r| == w && DigitsBelow(r, 16) &&
      ValueOf(r, 16) == if w < 16 then q % Pow(16, w) else q
  {
    QwordToHexRoundTrip(q);
    WidthValue(QwordToHex(q), w, 16);
  }

  // ---------------------------------------------------------------------
  // strlen, M_append, dstoui

  /** `s` is a C string: it holds a terminating NUL. */
  predicate IsCString(s: seq<char>) {
    NUL in s
  }

  /** `strlen` (src/strings.c:160-164): the number of characters before the first NUL. */
  method Strlen(s: seq<char>) returns (n: nat)
    requires IsCString(s)
    ensures n < |s| && s[n] == NUL && NUL !in s[..n]
  {
    n := 0;
    while s[n] != NUL
      invariant n < |s| && NUL in s[n..] && NUL !in s[..n]
      decreases |s| - n
    {
      assert s[n..] == [s[n]] + s[n + 1..];
      n := n + 1;
    }
  }

  /** The content of a C string: the characters before its first NUL. */
  function Content(s: seq<char>): (r: seq<char>)
    requires IsCString(s)
    ensures |r| < |s| && r == s[..|r|] && s[|r|] == NUL && NUL !in r
    decreases |s|
  {
    if s[0] == NUL then [] else [s[0]] + Content(s[1..])
  }

  /** `M_append` (src/strings.c:166-177): a fresh C string holding the
      content of `s` followed by the content of `t`, in a buffer of exactly
      `strlen(s) + strlen(t) + 1` characters. */
  method MAppend(s: seq<char>, t: seq<char>) returns (u: seq<char>)
    requires IsCString(s) && IsCString(t)
    ensures u == Content(s) + Content(t) + [NUL]
    ensures |u| == |Content(s)| + |Content(t)| + 1
  {
    var ls := Strlen(s);
    var lt := Strlen(t);
    var buf := new char[ls + lt + 1];
    var up := 0;
    var p := 0;
    while s[p] != NUL
      invariant p <= ls && up == p
      decreases ls - p
      invariant buf[..up] == s[..p]
    {
      buf[up] := s[p];
      up, p := up + 1, p + 1;
    }
    p := 0;
    while t[p] != NUL
      invariant p <= lt && up == ls + p
      decreases lt - p
      invariant buf[..up] == s[..ls] + t[..p]
    {
      buf[up] := t[p];
      up, p := up + 1, p + 1;
    }
    buf[up] := NUL;
    u := buf[..];
    ContentIsPrefix(s, ls);
    ContentIsPrefix(t, lt);
  }

  /** The content is the prefix up to the first NUL. */
  lemma {:induction false} ContentIsPrefix(s: seq<char>, n: nat)
    requires n < |s| && s[n] == NUL && NUL !in s[..n]
    ensures IsCString(s) && Content(s) == s[..n]
    decreases n
  {
    if n > 0 {
      assert s[0] == s[..n][0];
      assert s[1..][..n - 1] == s[..n][1..];
      ContentIsPrefix(s[1..], n - 1);
      assert s[..n] == [s[0]] + s[1..][..n - 1];
    }
  }

  /** The maximal run of decimal digits at the start of `s`. */
  function LeadingDigits(s: seq<char>): (r: seq<char>)
    ensures |r| <= |s| && r == s[..|r|] && (forall i :: 0 <= i < |r| ==> IsDecDigit(r[i]))
    ensures |r| < |s| ==> !IsDecDigit(s[|r|])
    decreases |s|
  {
    if s != [] && IsDecDigit(s[0]) then [s[0]] + LeadingDigits(s[1..]) else []
  }

  lemma ModAddMultiple(k: nat, m: nat, y: nat)
    requires m > 0
    ensures (k * m + y) % m == y % m
  {
    DivModUnique(k * m + y, m, k + y / m, y % m);
  }

  /** `dstoui` (src/strings.c:179-187): the value, modulo 2^64, of the
      maximal run of decimal digits at the start of `s`; it stops at the
      first non-digit (the terminator at the latest). */
  method Dstoui(s: seq<char>) returns (r: nat)
    requires IsCString(s)
    ensures r == ValueOf(LeadingDigits(s), 10) % U64
  {
    ghost var lead := LeadingDigits(s);
    r := 0;
    var p := 0;
    while IsDecDigit(s[p])
      invariant p <= |lead| < |s|
      invariant r == ValueOf(s[..p], 10) % U64
      decreases |lead| - p
    {
      if p == |lead| {
        assert false;
      }
      var d := HexDigitValue(s[p]);
      AppendDigit(s[..p + 1], 10);
      assert s[..p + 1][..p] == s[..p];
      StepModulo(ValueOf(s[..p], 10), r, d);
      r := (r * 10 + d) % U64;
      p := p + 1;
    }
    assert lead == s[..p];
  }

  /** The value of a numeral is that of all but its last digit, times the
      base, plus its last digit. */
  lemma AppendDigit(s: seq<char>, base: nat)
    requires s != []
    ensures ValueOf(s, base) == ValueOf(s[..|s| - 1], base) * base + HexDigitValue(s[|s| - 1])
  {
  }

  /** One step of `dstoui` keeps the running value right modulo 2^64. */
  lemma StepModulo(v: nat, r: nat, d: nat)
    requires r == v % U64
    ensures (r * 10 + d) % U64 == (v * 10 + d) % U64
  {
    var q := v / U64;
    assert v == q * U64 + r;
    assert v * 10 + d == (q * 10) * U64 + (r * 10 + d);
    ModAddMultiple(q * 10, U64, r * 10 + d);
  }

  /** On a run of decimal digits followed by a non-digit, the leading
      digits are the whole run. */
  lemma {:induction false} LeadingDigitsOfNumeral(d: seq<char>, c: char)
    requires forall i :: 0 <= i < |d| ==> IsDecDigit(d[i])
    requires !IsDecDigit(c)
    ensures LeadingDigits(d + [c]) == d
    decreases |d|
  {
    if d != [] {
      assert (d + [c])[1..] == d[1..] + [c];
      LeadingDigitsOfNumeral(d[1..], c);
    }
  }

  /** `dstoui` reads back the unpadded `%u` rendering of any 64-bit value. */
  lemma DecimalRoundTrip(u: nat)
    requires u < U64
    ensures var text := ApplyWidth(Digits(u, 20), -1);
      ValueOf(LeadingDigits(text + [NUL]), 10) % U64 == u
  {
    var text := ApplyWidth(Digits(u, 20), -1);
    UnpaddedDecimal(u);
    LeadingDigitsOfNumeral(text, NUL);
    DivModUnique(u, U64, 0, u);
  }

  /** The digit run of `s` is unchanged when the terminator is appended. */
  lemma {:induction false} LeadingDigitsTerminated(x: seq<char>)
    ensures LeadingDigits(x + [NUL]) == LeadingDigits(x)
    decreases |x|
  {
    if x != [] {
      assert (x + [NUL])[1..] == x[1..] + [NUL];
      LeadingDigitsTerminated(x[1..]);
    }
  }

  // ---------------------------------------------------------------------
  // M_vsprintf

  /** A variadic argument: a 64-bit number for `%u`/`%h`, a C string (by its
      content) for `%s`. */
  datatype Arg = Num(n: nat) | Str(s: seq<char>)

  const INT_MIN: int := -0x8000_0000
  const INT_MAX: int := 0x7fff_ffff

  /** The C conversion of a 64-bit unsigned value to `int`: its low 32 bits
      read as two's complement. */
  function Int32(x: nat): (r: int)
    ensures INT_MIN <= r <= INT_MAX
    ensures (r - x) % U32 == 0
    ensures x <= INT_MAX ==> r == x
  {
    var low := x % U32;
    if low <= INT_MAX then low else low - U32
  }

  /** `a` is an argument the conversion `c` can consume. */
  predicate ArgFits(c: char, a: Arg) {
    match a
    case Num(n) => (c == 'u' || c == 'h') && n < U64
    case Str(t) => c == 's' && NUL !in t
  }

  /** The digits after the '%' that starts `fmt`. */
  function WidthDigits(fmt: seq<char>): seq<char>
    requires fmt != []
  {
    LeadingDigits(fmt[1..])
  }

  /** The width a directive gives: -1 without digits, otherwise `dstoui` of
      the digits converted to `int` (src/strings.c:94-104). */
  function Width(digits: seq<char>): int {
    if digits == [] then -1 else Int32(ValueOf(digits, 10) % U64)
  }

  /** `args` supplies every directive of the format content `fmt`: each '%'
      has a conversion `u`, `h` or `s` (after optional width digits) before
      the end of the format, and each takes the next argument, of the
      matching kind. Further arguments are never read. */
  predicate Fits(fmt: seq<char>, args: seq<Arg>)
    decreases |fmt|
  {
    if fmt == [] then true
    else if fmt[0] != '%' then Fits(fmt[1..], args)
    else
      var n := |WidthDigits(fmt)|;
      1 + n < |fmt| && args != [] && ArgFits(fmt[1 + n], args[0]) &&
      Fits(fmt[2 + n..], args[1..])
  }

  /** The text one directive appends (src/strings.c:106-152): the width rule
      applied to the 20 decimal or 16 hexadecimal digits for `%u`/`%h`; the
      string itself, whatever the width, for `%s`. */
  function Field(c: char, width: int, a: Arg): seq<char>
    requires ArgFits(c, a)
  {
    match a
    case Num(n) => ApplyWidth(if c == 'u' then Digits(n, 20) else QwordToHex(n), width)
    case Str(t) => t
  }

  /** The content `M_vsprintf(fmt, args)` produces: literal characters are
      copied, each directive is replaced by its field. */
  function Format(fmt: seq<char>, args: seq<Arg>): seq<char>
    requires Fits(fmt, args)
    decreases |fmt|
  {
    if fmt == [] then []
    else if fmt[0] != '%' then [fmt[0]] + Format(fmt[1..], args)
    else
      var d := WidthDigits(fmt);
      Field(fmt[1 + |d|], Width(d), args[0]) + Format(fmt[2 + |d|..], args[1..])
  }

  /** `realloc`: a buffer of `n` characters whose first ones are those of `s`. */
  method Realloc(s: array<char>, n: nat) returns (t: array<char>)
    requires s.Length <= n
    ensures fresh(t) && t.Length == n && t[..s.Length] == s[..]
  {
    t := new char[n];
    var j := 0;
    while j < s.Length
      invariant j <= s.Length && t[..j] == s[..j]
    {
      t[j] := s[j];
      j := j + 1;
    }
  }

  /** The check at the top of the format loop (src/strings.c:84-87): when
      fewer than two characters are left after index `i`, the buffer doubles. */
  method Reserve(s: array<char>, i: nat) returns (s': array<char>)
    requires i < s.Length
    ensures s' == s || fresh(s')
    ensures s'.Length == if s.Length - i < 2 then 2 * s.Length else s.Length
    ensures i + 2 <= s'.Length && s'[..i] == s[..i]
  {
    s' := s;
    if s.Length - i < 2 {
      s' := Realloc(s, s.Length * 2);
      assert s'[..i] == s'[..s.Length][..i];
    }
  }

  /** Computes the field of one directive (src/strings.c:106-139) as the
      number `padw` of '0's to write and the text `t` to copy after them. */
  method FieldParts(c: char, width: int, a: Arg, buf: array<char>) returns (t: seq<char>, padw: nat)
    requires ArgFits(c, a) && buf.Length == 21
    modifies buf
    ensures Zeros(padw) + t == Field(c, width, a)
  {
    if c == 'u' {
      DecimalInto(a.n, buf);
      t, padw := WidthParts(buf[..20], width);
    } else if c == 'h' {
      t, padw := WidthParts(QwordToHex(a.n), width);
    } else {
      t, padw := a.s, 0;
      assert Zeros(0) + t == t;
    }
  }

  /** The width rule applied to the digits `digits` (src/strings.c:129-139). */
  method WidthParts(digits: seq<char>, width: int) returns (t: seq<char>, padw: nat)
    ensures Zeros(padw) + t == ApplyWidth(digits, width)
  {
    t, padw := digits, 0;
    var l := |t|;
    if width < 0 {
      while |t| >= 2 && t[0] == '0'
        invariant StripZeros(t) == StripZeros(digits)
      {
        t := t[1..];
      }
      assert Zeros(0) + t == t;
    } else if width < l {
      t := t[l - width..];
      assert Zeros(0) + t == t;
    } else {
      padw := width - l;
    }
  }

  /** Appends `padw` '0's and then `t` at index `i` (src/strings.c:142-152),
      growing the buffer to exactly the size needed when it is too small. */
  method Emit(s: array<char>, i: nat, t: seq<char>, padw: nat) returns (s': array<char>, i': nat)
    requires i < s.Length
    modifies s
    ensures s' == s || fresh(s')
    ensures i' == i + padw + |t| && i' < s'.Length
    ensures s'[..i'] == old(s[..i]) + Zeros(padw) + t
  {
    s' := s;
    var needed := i + |t| + padw + 1;
    if s'.Length < needed {
      s' := Realloc(s', needed);
      assert s'[..i] == s'[..s.Length][..i];
    }
    ZeroRun(s', i, padw);
    CopyRun(s', i + padw, t);
    i' := i + padw + |t|;
  }

  /** The padding loop (src/strings.c:148-149): `n` '0's from index `i`. */
  method ZeroRun(a: array<char>, i: nat, n: nat)
    requires i + n <= a.Length
    modifies a
    ensures a[..i + n] == old(a[..i]) + Zeros(n)
  {
    ghost var pre := a[..i];
    for j := 0 to n
      invariant a[..i + j] == pre + Zeros(j)
    {
      a[i + j] := '0';
      assert a[..i + j + 1] == a[..i + j] + ['0'];
    }
  }

  /** The copy loop (src/strings.c:151-152): the characters of `t` from
      index `i`. */
  method CopyRun(a: array<char>, i: nat, t: seq<char>)
    requires i + |t| <= a.Length
    modifies a
    ensures a[..i + |t|] == old(a[..i]) + t
  {
    ghost var pre := a[..i];
    for j := 0 to |t|
      invariant a[..i + j] == pre + t[..j]
    {
      a[i + j] := t[j];
      assert a[..i + j + 1] == a[..i + j] + [t[j]];
      assert t[..j + 1] == t[..j] + [t[j]];
    }
    assert t[..|t|] == t;
  }

  /** Reads the width of the directive whose '%' is at `fmt[p]`
      (src/strings.c:94-104) and returns it with the index `q` of the
      conversion character. */
  method ParseDirective(fmt: seq<char>, p: nat) returns (width: int, q: nat)
    requires p < |fmt| && fmt[p] == '%' && 1 + |WidthDigits(fmt[p..])| < |fmt| - p
    ensures q == p + 1 + |WidthDigits(fmt[p..])| && q < |fmt|
    ensures width == Width(WidthDigits(fmt[p..]))
  {
    ghost var d := WidthDigits(fmt[p..]);
    assert fmt[p..][1..] == fmt[p + 1..];
    width := -1;
    q := p + 1;
    if IsDecDigit(fmt[q]) {
      LeadingDigitsTerminated(fmt[q..]);
      var w := Dstoui(fmt[q..] + [NUL]);
      width := Int32(w);
      while IsDecDigit(fmt[q])
        invariant p + 1 <= q <= p + 1 + |d|
        decreases p + 1 + |d| - q
      {
        if q == p + 1 + |d| {
          assert false;
        }
        q := q + 1;
      }
    }
  }

  /** `done` is the output for `fmt[..p]`, which consumed `args[..k]`: what
      the rest of the format produces completes the whole output. */
  ghost predicate Progress(fmt: seq<char>, args: seq<Arg>, done: seq<char>, p: nat, k: nat) {
    p <= |fmt| && k <= |args| && Fits(fmt, args) && Fits(fmt[p..], args[k..]) &&
    done + Format(fmt[p..], args[k..]) == Format(fmt, args)
  }

  /** Copying a literal character keeps the output on track. */
  lemma LiteralProgress(fmt: seq<char>, args: seq<Arg>, done: seq<char>, p: nat, k: nat)
    requires Progress(fmt, args, done, p, k) && p < |fmt| && fmt[p] != '%'
    ensures Progress(fmt, args, done + [fmt[p]], p + 1, k)
  {
    assert fmt[p..][1..] == fmt[p + 1..];
  }

  /** Appending the field of the directive at `fmt[p]`, whose conversion is
      at `fmt[q]`, keeps the output on track. */
  lemma DirectiveProgress(fmt: seq<char>, args: seq<Arg>, done: seq<char>, p: nat, k: nat, q: nat)
    requires Progress(fmt, args, done, p, k) && p < |fmt| && fmt[p] == '%'
    requires q == p + 1 + |WidthDigits(fmt[p..])|
    ensures q < |fmt| && k < |args| && ArgFits(fmt[q], args[k])
    ensures Progress(fmt, args, done + Field(fmt[q], Width(WidthDigits(fmt[p..])), args[k]), q + 1, k + 1)
  {
    assert fmt[p..][q - p + 1..] == fmt[q + 1..];
    assert args[k..][1..] == args[k + 1..];
  }

  /** One directive of `M_vsprintf` (src/strings.c:94-152), the '%' at
      `fmt[p]`: its field is appended to the output and the format and the
      arguments advance past it. */
  method Directive(fmt: seq<char>, args: seq<Arg>, s: array<char>, i: nat, p: nat, k: nat, buf: array<char>)
    returns (s': array<char>, i': nat, p': nat, k': nat)
    requires i < s.Length && buf.Length == 21 && s != buf
    requires Progress(fmt, args, s[..i], p, k) && p < |fmt| && fmt[p] == '%'
    modifies s, buf
    ensures s' == s || fresh(s')
    ensures i' < s'.Length && p < p' && k' == k + 1
    ensures Progress(fmt, args, s'[..i'], p', k')
  {
    ghost var done := s[..i];
    var width, q := ParseDirective(fmt, p);
    DirectiveProgress(fmt, args, done, p, k, q);
    ghost var field := Field(fmt[q], width, args[k]);
    var t, padw := FieldParts(fmt[q], width, args[k], buf);
    assert s[..i] == done;
    s', i' := Emit(s, i, t, padw);
    assert s'[..i'] == done + field;
    p' := q + 1;
    k' := k + 1;
  }

  /** `M_vsprintf` (src/strings.c:74-158): builds the formatted string in a
      buffer that starts at 64 characters, doubles whenever fewer than two are
      left before a format character, and grows to the exact size needed
      before a field is written. The result is the formatted content and its
      terminator, within the final capacity `cap`. */
  method VSprintf(fmt: seq<char>, args: seq<Arg>) returns (r: seq<char>, cap: nat)
    requires NUL !in fmt && Fits(fmt, args)
    ensures r == Format(fmt, args) + [NUL]
    ensures |r| <= cap
  {
    var s := new char[64];
    var buf := new char[21];
    buf[20] := NUL;
    var i: nat := 0;
    var p: nat := 0;
    var k: nat := 0;
    while p < |fmt|
      invariant i < s.Length && fresh(s) && fresh(buf) && buf.Length == 21 && s != buf
      invariant Progress(fmt, args, s[..i], p, k)
      decreases |fmt| - p
    {
      s := Reserve(s, i);
      ghost var done := s[..i];
      if fmt[p] != '%' {
        LiteralProgress(fmt, args, done, p, k);
        s[i] := fmt[p];
        assert s[..i + 1] == done + [fmt[p]];
        i := i + 1;
        p := p + 1;
      } else {
        s, i, p, k := Directive(fmt, args, s, i, p, k, buf);
      }
    }
    assert fmt[p..] == [];
    s[i] := NUL;
    r := s[..i + 1];
    cap := s.Length;
  }

  /** A format without directives is copied verbatim. */
  lemma {:induction false} FormatLiteral(fmt: seq<char>, args: seq<Arg>)
    requires '%' !in fmt
    ensures Fits(fmt, args) && Format(fmt, args) == fmt
    decreases |fmt|
  {
    if fmt != [] {
      assert fmt == [fmt[0]] + fmt[1..];
      FormatLiteral(fmt[1..], args);
    }
  }

  /** Literal characters in front of a format are copied in front of its
      content. */
  lemma {:induction false} FormatLiteralThen(lit: seq<char>, rest: seq<char>, args: seq<Arg>)
    requires '%' !in lit && Fits(rest, args)
    ensures Fits(lit + rest, args) && Format(lit + rest, args) == lit + Format(rest, args)
    decreases |lit|
  {
    if lit == [] {
      assert lit + rest == rest;
    } else {
      assert (lit + rest)[0] == lit[0] != '%';
      assert (lit + rest)[1..] == lit[1..] + rest;
      FormatLiteralThen(lit[1..], rest, args);
    }
  }

  /** A width-less directive in front of a format takes the first argument
      and puts its field in front of the rest. */
  lemma FormatDirectiveThen(c: char, a: Arg, rest: seq<char>, args: seq<Arg>)
    requires ArgFits(c, a) && !IsDecDigit(c) && Fits(rest, args)
    ensures Fits(['%', c] + rest, [a] + args)
    ensures Format(['%', c] + rest, [a] + args) == Field(c, -1, a) + Format(rest, args)
  {
    var fmt := ['%', c] + rest;
    assert fmt[1..] == [c] + rest;
    assert LeadingDigits(fmt[1..]) == [];
    assert fmt[2..] == rest;
    assert ([a] + args)[1..] == args;
  }

  /** A directive without width digits leaves the width at -1. */
  lemma DirectiveNoWidth(c: char, a: Arg)
    requires ArgFits(c, a) && !IsDecDigit(c)
    ensures Fits(['%', c], [a]) && Format(['%', c], [a]) == Field(c, -1, a)
  {
    var fmt := ['%', c];
    assert fmt[1..] == [c];
    assert LeadingDigits([c]) == [];
    assert fmt[2..] == [];
  }

  /** `"%u"` renders a 64-bit value so that `dstoui` reads it back. */
  lemma FormatUnsignedRoundTrip(u: nat)
    requires u < U64
    ensures Fits("%u", [Num(u)])
    ensures var r := Format("%u", [Num(u)]);
      1 <= |r| <= 20 && ValueOf(LeadingDigits(r + [NUL]), 10) % U64 == u
  {
    DirectiveNoWidth('u', Num(u));
    UnpaddedDecimal(u);
    DecimalRoundTrip(u);
  }

  /** A directive `%` `d` `c` whose width digits `d` stand for an `int`. */
  lemma DirectiveWidth(d: seq<char>, c: char, a: Arg)
    requires 0 < |d| && (forall i :: 0 <= i < |d| ==> IsDecDigit(d[i]))
    requires ValueOf(d, 10) <= INT_MAX && ArgFits(c, a) && !IsDecDigit(c)
    ensures var fmt := ['%'] + d + [c];
      Fits(fmt, [a]) && Format(fmt, [a]) == Field(c, ValueOf(d, 10), a)
  {
    var fmt := ['%'] + d + [c];
    Enclosed('%', d, c);
    LeadingDigitsOfNumeral(d, c);
    assert WidthDigits(fmt) == d;
    assert Fits(fmt[2 + |d|..], [a][1..]);
    WidthOfDigits(d);
    assert Format(fmt[2 + |d|..], [a][1..]) == [];
  }

  /** The parts of `x`, then `d`, then `c`. */
  lemma Enclosed<T>(x: T, d: seq<T>, c: T)
    ensures var s := [x] + d + [c];
      |s| == |d| + 2 && s[0] == x && s[1..] == d + [c] && s[1 + |d|] == c && s[2 + |d|..] == []
  {
  }

  /** Width digits that stand for an `int` give that width. */
  lemma WidthOfDigits(d: seq<char>)
    requires 0 < |d| && ValueOf(d, 10) <= INT_MAX
    ensures Width(d) == ValueOf(d, 10)
  {
    DivModUnique(ValueOf(d, 10), U64, 0, ValueOf(d, 10));
  }

  /** `%<w>h` renders exactly `w` hexadecimal digits: the low `w` nibbles of
      the argument, zero-padded beyond 16. */
  lemma FormatHexWidth(d: seq<char>, q: nat)
    requires 0 < |d| && (forall i :: 0 <= i < |d| ==> IsDecDigit(d[i]))
    requires ValueOf(d, 10) <= INT_MAX && q < U64
    ensures Fits(['%'] + d + ['h'], [Num(q)])
    ensures var w := ValueOf(d, 10); var r := Format(['%'] + d + ['h'], [Num(q)]);
      |r| == w && DigitsBelow(r, 16) &&
      ValueOf(r, 16) == if w < 16 then q % Pow(16, w) else q
  {
    DirectiveWidth(d, 'h', Num(q));
    WidthHex(q, ValueOf(d, 10));
  }

  /** `%<w>u` renders exactly `w` decimal digits: the argument modulo
      `10^w`, zero-padded beyond 20. */
  lemma FormatDecimalWidth(d: seq<char>, u: nat)
    requires 0 < |d| && (forall i :: 0 <= i < |d| ==> IsDecDigit(d[i]))
    requires ValueOf(d, 10) <= INT_MAX && u < U64
    ensures Fits(['%'] + d + ['u'], [Num(u)])
    ensures var w := ValueOf(d, 10); var r := Format(['%'] + d + ['u'], [Num(u)]);
      |r| == w && DigitsBelow(r, 10) &&
      ValueOf(r, 10) == if w < 20 then u % Pow(10, w) else u
  {
    DirectiveWidth(d, 'u', Num(u));
    WidthDecimal(u, ValueOf(d, 10));
  }

  /** `%s` copies its argument, with or without width digits. */
  lemma FormatString(d: seq<char>, t: seq<char>)
    requires forall i :: 0 <= i < |d| ==> IsDecDigit(d[i])
    requires NUL !in t
    ensures Fits(['%'] + d + ['s'], [Str(t)]) && Format(['%'] + d + ['s'], [Str(t)]) == t
  {
    var fmt := ['%'] + d + ['s'];
    Enclosed('%', d, 's');
    LeadingDigitsOfNumeral(d, 's');
    assert WidthDigits(fmt) == d;
    assert Fits(fmt[2 + |d|..], [Str(t)][1..]);
  }
}
