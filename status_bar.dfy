/** The text of the status row of src/console.c: the 12-hour clock shown
    by `updateClock` and the heap usage shown by `updateMemUse`, cut and
    padded to a fixed field at the right-hand end of the row. The RTC time
    and the heap usage are inputs. */
module StatusBar {
  import opened Machine
  import opened Arith
  import opened Strings

  /** Text columns of a row, and the width of the heap-usage field. */
  const COLUMNS: nat := 80
  const MAX_MEMLEN: nat := 24

  // ---------------------------------------------------------------------
  // updateClock

  /** The hour `updateClock` shows for the RTC hour `h` (0-23): `h % 12`,
      with 0 shown as 12. */
  function ClockHour(h: nat): (r: nat)
    ensures 1 <= r <= 12 && r % 12 == h % 12
  {
    if h % 12 == 0 then 12 else h % 12
  }

  /** The suffix `updateClock` shows: "PM" from hour 12 on. */
  function Meridiem(h: nat): (r: string)
    ensures r == "AM" || r == "PM"
    ensures r == "PM" <==> h >= 12
  {
    if h >= 12 then "PM" else "AM"
  }

  /** The hour and suffix shown determine the RTC hour: midnight is
      "12 AM", noon "12 PM", and no two hours of the day look alike. */
  lemma ClockReadBack(h: nat)
    requires h < 24
    ensures h == ClockHour(h) % 12 + (if Meridiem(h) == "PM" then 12 else 0)
    ensures h == 0 ==> ClockHour(h) == 12 && Meridiem(h) == "AM"
    ensures h == 12 ==> ClockHour(h) == 12 && Meridiem(h) == "PM"
  {
  }

  // ---------------------------------------------------------------------
  // updateMemUse

  /** The value and unit `updateMemUse` shows for `m` bytes in use: kibibytes,
      rounded down, from 1024 bytes on. */
  function MemUnit(m: nat): (r: (nat, string))
    ensures r.1 == "K" || r.1 == "bytes"
    ensures r.1 == "K" <==> m >= 1024
    ensures r.1 == "K" ==> r.0 * 1024 <= m < (r.0 + 1) * 1024
    ensures r.1 == "bytes" ==> r.0 == m
  {
    if m >= 1024 then (m / 1024, "K") else (m, "bytes")
  }

  /** The format `updateMemUse` hands to `M_sprintf`. */
  const MEM_FORMAT: string := "Heap used: %u %s"

  /** `n` spaces. */
  function Spaces(n: nat): (r: string)
    ensures |r| == n && forall i :: 0 <= i < n ==> r[i] == ' '
  {
    seq(n, i => ' ')
  }

  /** The field `updateMemUse` writes: the formatted text cut to 24
      characters, and a shorter one right-aligned in 24 by spaces. */
  function MemUseText(m: nat): (r: string)
    requires m < U64
  {
    var (v, unit) := MemUnit(m);
    MemFormat(v, unit);
    FitField(Format(MEM_FORMAT, [Num(v), Str(unit)]))
  }

  /** Cutting to 24 characters, then padding on the left to 24. */
  function FitField(s: string): (r: string)
    ensures |r| == MAX_MEMLEN
    ensures |s| > MAX_MEMLEN ==> r == s[..MAX_MEMLEN]
    ensures |s| <= MAX_MEMLEN ==> r == Spaces(MAX_MEMLEN - |s|) + s
  {
    var t := if |s| > MAX_MEMLEN then s[..MAX_MEMLEN] else s;
    if |t| < MAX_MEMLEN then Spaces(MAX_MEMLEN - |t|) + t
    else
      assert Spaces(0) + t == t;
      t
  }

  /** The heap usage in decimal, as `%u` renders it without width. */
  function Decimal(v: nat): string
    requires v < U64
  {
    ApplyWidth(Digits(v, 20), -1)
  }

  /** `M_sprintf(MEM_FORMAT, v, unit)` is "Heap used: ", `v` in decimal, a
      space and the unit. */
  lemma MemFormat(v: nat, unit: string)
    requires v < U64 && NUL !in unit
    ensures Fits(MEM_FORMAT, [Num(v), Str(unit)])
    ensures Format(MEM_FORMAT, [Num(v), Str(unit)]) == "Heap used: " + Decimal(v) + " " + unit
  {
    var head, tail, args := "Heap used: ", "%u %s", [Num(v), Str(unit)];
    MemFormatTail(v, unit);
    FormatLiteralThen(head, tail, args);
    assert head + tail == MEM_FORMAT;
    ConcatAssoc(head, Decimal(v), " ", unit);
  }

  lemma ConcatAssoc(a: string, b: string, c: string, d: string)
    ensures a + (b + c + d) == a + b + c + d
  {
  }

  lemma MemFormatTail(v: nat, unit: string)
    requires v < U64 && NUL !in unit
    ensures Fits("%u %s", [Num(v), Str(unit)])
    ensures Format("%u %s", [Num(v), Str(unit)]) == Decimal(v) + " " + unit
  {
    FormatLiteral([], []);
    FormatDirectiveThen('s', Str(unit), [], []);
    assert ['%', 's'] + [] == "%s";
    FormatLiteralThen(" ", "%s", [Str(unit)]);
    assert " " + "%s" == " %s";
    FormatDirectiveThen('u', Num(v), " %s", [Str(unit)]);
    assert ['%', 'u'] + " %s" == "%u %s";
    assert [Num(v)] + [Str(unit)] == [Num(v), Str(unit)];
  }

  /** The field is always 24 characters, so `80 - strlen(s)` puts it at
      column 56 and it ends at the last column; it is "Heap used: ", the
      value in decimal, a space and the unit, cut or padded to 24 as
      `FitField` says. */
  lemma MemUseLayout(m: nat)
    requires m < U64
    ensures var r := MemUseText(m);
      |r| == MAX_MEMLEN && COLUMNS - |r| == 56
    ensures var (v, unit) := MemUnit(m);
      MemUseText(m) == FitField("Heap used: " + Decimal(v) + " " + unit)
  {
    var (v, unit) := MemUnit(m);
    MemFormat(v, unit);
  }

  /** Below 1024 bytes the whole text fits: it is never cut. */
  lemma SmallHeapFits(m: nat)
    requires m < 1024
    ensures var s := "Heap used: " + Decimal(m) + " " + "bytes";
      |s| <= MAX_MEMLEN && MemUseText(m) == Spaces(MAX_MEMLEN - |s|) + s
  {
    FourDigits(m);
    MemUseLayout(m);
    assert MemUnit(m) == (m, "bytes");
  }

  /** A value below 1024 has at most four decimal digits. */
  lemma FourDigits(m: nat)
    requires m < 1024
    ensures |Decimal(m)| <= 4
  {
    UnpaddedDecimal(m);
    assert Pow(10, 4) == 10000 by {
      assert Pow(10, 1) == 10;
      assert Pow(10, 2) == 100;
      assert Pow(10, 3) == 1000;
    }
    ShortDecimal(Decimal(m), 4);
  }

  /** A decimal numeral without a leading zero and of value below `10^n` has
      at most `n` digits. */
  lemma {:induction false} ShortDecimal(r: seq<char>, n: nat)
    requires |r| >= 1 && DigitsBelow(r, 10) && (|r| > 1 ==> r[0] != '0')
    requires n >= 1 && ValueOf(r, 10) < Pow(10, n)
    ensures |r| <= n
  {
    if |r| > n {
      LeadingDigitBound(r);
      PowMonotone(n, |r| - 1);
    }
  }

  /** A numeral of `k + 1` digits whose first digit is not '0' is at least `10^k`. */
  lemma LeadingDigitBound(r: seq<char>)
    requires |r| > 1 && DigitsBelow(r, 10) && r[0] != '0'
    ensures ValueOf(r, 10) >= Pow(10, |r| - 1)
  {
    assert r == [r[0]] + r[1..];
    ValueAppend([r[0]], r[1..], 10);
    assert ValueOf([r[0]], 10) == HexDigitValue(r[0]) >= 1;
    MulAtLeast(HexDigitValue(r[0]), Pow(10, |r| - 1));
  }

  lemma {:induction false} PowMonotone(a: nat, b: nat)
    requires a <= b
    ensures Pow(10, a) <= Pow(10, b)
    decreases b
  {
    if a < b {
      PowMonotone(a, b - 1);
    }
  }
}
