/** ACPI table discovery of src/kernel/acpi.c: the scan for the Root System
    Description Pointer, the 8-bit checksums, and the walk over the Root
    System Description Table that records the HPET, APIC (MADT) and FACP
    (FADT) tables (sections 5.2.5.1, 5.2.5.3, 5.2.6 and 5.2.7 of the ACPI
    specification).

    Physical memory is a total map from addresses to bytes; address 0 is the
    null pointer. */
module Acpi {
  import opened Machine

  type Memory = nat -> byte

  /** The bytes of an ASCII signature. */
  function Ascii(s: string): (r: seq<byte>)
    requires forall i :: 0 <= i < |s| ==> s[i] as int < 256
    ensures |r| == |s| && forall i :: 0 <= i < |s| ==> r[i] as int == s[i] as int
  {
    seq(|s|, i requires 0 <= i < |s| => s[i] as int as byte)
  }

  const RSDP_SIG: seq<byte> := Ascii("RSD PTR ")
  const RSDT_SIG: seq<byte> := Ascii("RSDT")
  const HPET_SIG: seq<byte> := Ascii("HPET")
  const APIC_SIG: seq<byte> := Ascii("APIC")
  const FACP_SIG: seq<byte> := Ascii("FACP")

  /** The RSDT header is 36 bytes; its entries follow. */
  const HEADER_LEN: nat := 36
  /** The HPET description table holds the base address at offset 44. */
  const HPET_BASE_OFFSET: nat := 44

  /** `n` bytes of memory from `a`. */
  function Bytes(mem: Memory, a: nat, n: nat): (r: seq<byte>)
    ensures |r| == n && forall i :: 0 <= i < n ==> r[i] == mem(a + i)
  {
    seq(n, i requires 0 <= i < n => mem(a + i))
  }

  /** Little-endian 32- and 64-bit loads. */
  function Le32(mem: Memory, a: nat): (r: nat)
    ensures r < U32
  {
    mem(a) as nat + 0x100 * mem(a + 1) as nat + 0x1_0000 * mem(a + 2) as nat + 0x100_0000 * mem(a + 3) as nat
  }

  function Le64(mem: Memory, a: nat): (r: nat)
    ensures r < U64
  {
    Le32(mem, a) + U32 * Le32(mem, a + 4)
  }

  // ---------------------------------------------------------------------
  // find_rsdp

  /** An address `find_rsdp` examines: 16-byte aligned in [0x80000, 0xa0000)
      or in [0xe0000, 0xfffff). */
  predicate Candidate(a: nat) {
    a % 16 == 0 && (0x80000 <= a < 0xa0000 || 0xe0000 <= a < 0xfffff)
  }

  predicate IsRsdpAt(mem: Memory, a: nat) {
    Bytes(mem, a, 8) == RSDP_SIG
  }

  /** The first aligned address in [a, hi) holding the signature, or 0. */
  function ScanRange(mem: Memory, a: nat, hi: nat): nat
    decreases hi - a
  {
    if a >= hi then 0 else if IsRsdpAt(mem, a) then a else ScanRange(mem, a + 16, hi)
  }

  /** What `find_rsdp` returns. */
  function FirstRsdp(mem: Memory): nat {
    var r := ScanRange(mem, 0x80000, 0xa0000);
    if r != 0 then r else ScanRange(mem, 0xe0000, 0xfffff)
  }

  lemma {:induction false} ScanRangeSpec(mem: Memory, a: nat, hi: nat)
    requires a > 0 && a % 16 == 0
    ensures var r := ScanRange(mem, a, hi);
      (r == 0 || (a <= r < hi && r % 16 == 0 && IsRsdpAt(mem, r))) &&
      (forall b: nat :: a <= b < hi && b % 16 == 0 && (r == 0 || b < r) ==> !IsRsdpAt(mem, b))
    decreases hi - a
  {
    if a < hi && !IsRsdpAt(mem, a) {
      ScanRangeSpec(mem, a + 16, hi);
    }
  }

  /** `find_rsdp` returns the first candidate address, in scan order, that
      holds "RSD PTR ", and 0 when none does. */
  lemma FirstRsdpSpec(mem: Memory)
    ensures var r := FirstRsdp(mem);
      (r == 0 ==> forall a: nat :: Candidate(a) ==> !IsRsdpAt(mem, a)) &&
      (r != 0 ==> Candidate(r) && IsRsdpAt(mem, r) &&
                  forall a: nat :: Candidate(a) && a < r ==> !IsRsdpAt(mem, a))
  {
    ScanRangeSpec(mem, 0x80000, 0xa0000);
    ScanRangeSpec(mem, 0xe0000, 0xfffff);
  }

  /** `find_rsdp` (src/kernel/acpi.c:15-25): two scanning loops stepping 16 bytes. */
  method FindRsdp(mem: Memory) returns (r: nat)
    ensures r == FirstRsdp(mem)
  {
    var p := 0x80000;
    while p < 0xa0000
      invariant 0x80000 <= p <= 0xa0000 && p % 16 == 0
      invariant ScanRange(mem, 0x80000, 0xa0000) == ScanRange(mem, p, 0xa0000)
      decreases 0xa0000 - p
    {
      if IsRsdpAt(mem, p) {
        return p;
      }
      p := p + 16;
    }
    p := 0xe0000;
    while p < 0xfffff
      invariant 0xe0000 <= p <= 0xfffff + 15 && p % 16 == 0
      invariant ScanRange(mem, 0xe0000, 0xfffff) == ScanRange(mem, p, 0xfffff)
      decreases 0xfffff - p
    {
      if IsRsdpAt(mem, p) {
        return p;
      }
      p := p + 16;
    }
    return 0;
  }

  // ---------------------------------------------------------------------
  // Checksums

  /** The sum of `n` bytes from `a`, as an unbounded integer. */
  function Sum(mem: Memory, a: nat, n: nat): nat {
    if n == 0 then 0 else Sum(mem, a, n - 1) + mem(a + n - 1) as nat
  }

  /** A table passes its checksum when its bytes sum to 0 modulo 256. */
  predicate ChecksumOk(mem: Memory, a: nat, n: nat) {
    Sum(mem, a, n) % 256 == 0
  }

  /** The 8-bit accumulator loops of src/kernel/acpi.c:33-35 and 51-53. */
  method Checksum(mem: Memory, a: nat, n: nat) returns (sum: byte)
    ensures sum as nat == Sum(mem, a, n) % 256
  {
    sum := 0;
    var i := 0;
    while i < n
      invariant i <= n && sum as nat == Sum(mem, a, i) % 256
    {
      sum := ((sum as nat + mem(a + i) as nat) % 256) as byte;
      i := i + 1;
    }
  }

  /** Changing one byte of a table changes the sum by the same amount. */
  lemma {:induction false} SumChange(mem: Memory, mem': Memory, a: nat, n: nat, k: nat)
    requires k < n
    requires forall b :: b != a + k ==> mem'(b) == mem(b)
    ensures Sum(mem', a, n) == Sum(mem, a, n) - mem(a + k) as int + mem'(a + k) as int
  {
    if n - 1 == k {
      SumSame(mem, mem', a, k, a + k);
    } else {
      SumChange(mem, mem', a, n - 1, k);
    }
  }

  /** Bytes outside the range leave the sum alone. */
  lemma {:induction false} SumSame(mem: Memory, mem': Memory, a: nat, n: nat, x: nat)
    requires forall b :: b != x ==> mem'(b) == mem(b)
    requires x >= a + n
    ensures Sum(mem', a, n) == Sum(mem, a, n)
  {
    if n > 0 {
      SumSame(mem, mem', a, n - 1, x);
    }
  }

  /** The checksum detects every single-byte corruption of a table. */
  lemma SingleByteErrorDetected(mem: Memory, mem': Memory, a: nat, n: nat, k: nat)
    requires k < n && ChecksumOk(mem, a, n)
    requires forall b :: b != a + k ==> mem'(b) == mem(b)
    requires mem'(a + k) != mem(a + k)
    ensures !ChecksumOk(mem', a, n)
  {
    SumChange(mem, mem', a, n, k);
    var d := mem'(a + k) as int - mem(a + k) as int;
    assert -256 < d < 256 && d != 0;
    var s := Sum(mem, a, n);
    if Sum(mem', a, n) % 256 == 0 {
      DiffOfMultiples(s + d, s, d);
    }
  }

  lemma DiffOfMultiples(x: int, y: int, d: int)
    requires x % 256 == 0 && y % 256 == 0 && x - y == d && -256 < d < 256
    ensures d == 0
  {
    var qx, qy := x / 256, y / 256;
    assert x == qx * 256 && y == qy * 256;
    assert d == (qx - qy) * 256;
  }

  // ---------------------------------------------------------------------
  // The RSDT walk

  /** The number of entries of an RSDT of length `len`: `(len - 36) / 4`,
      computed in 32 bits as the source does. */
  function EntryCount(len: nat): (n: nat)
    requires len < U32
    ensures len >= HEADER_LEN ==> n == (len - HEADER_LEN) / 4
  {
    ((len + U32 - HEADER_LEN) % U32) / 4
  }

  /** The table addresses listed by the RSDT at `rsdt`. */
  function Entries(mem: Memory, rsdt: nat): (r: seq<nat>)
    ensures var n := EntryCount(Le32(mem, rsdt + 4));
      |r| == n && forall i :: 0 <= i < n ==> r[i] == Le32(mem, rsdt + HEADER_LEN + 4 * i)
  {
    var n := EntryCount(Le32(mem, rsdt + 4));
    seq(n, i requires 0 <= i < n => Le32(mem, rsdt + HEADER_LEN + 4 * i))
  }

  predicate HasSig(mem: Memory, t: nat, sig: seq<byte>) {
    Bytes(mem, t, 4) == sig
  }

  /** Walking `ts` in order, the last table with signature `sig`; `cur` when
      there is none. */
  function LastMatch(mem: Memory, ts: seq<nat>, sig: seq<byte>, cur: nat): nat {
    if ts == [] then cur
    else
      var before := LastMatch(mem, ts[..|ts| - 1], sig, cur);
      if HasSig(mem, ts[|ts| - 1], sig) then ts[|ts| - 1] else before
  }

  /** The index of the last table in `ts` with signature `sig`, or -1. */
  function LastIndex(mem: Memory, ts: seq<nat>, sig: seq<byte>): (j: int)
    ensures -1 <= j < |ts|
    ensures j >= 0 ==> HasSig(mem, ts[j], sig)
    ensures forall k :: j < k < |ts| ==> !HasSig(mem, ts[k], sig)
  {
    if ts == [] then -1
    else if HasSig(mem, ts[|ts| - 1], sig) then |ts| - 1
    else
      var j := LastIndex(mem, ts[..|ts| - 1], sig);
      assert forall k :: j < k < |ts| - 1 ==> ts[k] == ts[..|ts| - 1][k];
      j
  }

  /** The last-writer-wins walk records the last matching table, or keeps
      the old value when no table matches. */
  lemma {:induction false} LastMatchSpec(mem: Memory, ts: seq<nat>, sig: seq<byte>, cur: nat)
    ensures var j := LastIndex(mem, ts, sig);
      LastMatch(mem, ts, sig, cur) == if j < 0 then cur else ts[j]
  {
    if ts != [] && !HasSig(mem, ts[|ts| - 1], sig) {
      var init := ts[..|ts| - 1];
      LastMatchSpec(mem, init, sig, cur);
      var j := LastIndex(mem, init, sig);
      if j >= 0 {
        assert init[j] == ts[j];
      }
    }
  }

  /** The driver's statics: the table addresses found and `hpet_block`. */
  datatype Tables = Tables(rsdp: nat, rsdt: nat, hpet: nat, apic: nat, facp: nat, hpetBlock: nat)

  /** Where `parse_acpi_tables` stops, from the state `s` before it. */
  function Parsed(mem: Memory, s: Tables): Tables {
    var rsdp := FirstRsdp(mem);
    if rsdp == 0 || !ChecksumOk(mem, rsdp, 20) then s.(rsdp := rsdp)
    else FromRsdt(mem, s.(rsdp := rsdp), Le32(mem, rsdp + 16))
  }

  /** The rest of the parse once the RSDP has been accepted and points at
      `rsdt`. */
  function FromRsdt(mem: Memory, s: Tables, rsdt: nat): Tables {
    if !HasSig(mem, rsdt, RSDT_SIG) || !ChecksumOk(mem, rsdt, Le32(mem, rsdt + 4)) then
      s.(rsdt := rsdt)
    else
      var ts := Entries(mem, rsdt);
      var hpet := LastMatch(mem, ts, HPET_SIG, s.hpet);
      Tables(s.rsdp, rsdt, hpet, LastMatch(mem, ts, APIC_SIG, s.apic), LastMatch(mem, ts, FACP_SIG, s.facp),
             if hpet != 0 then Le64(mem, hpet + HPET_BASE_OFFSET) else s.hpetBlock)
  }

  /** Without a valid RSDP nothing but `rsdp` changes; with one, the parse
      goes on at the RSDT the RSDP names. */
  lemma RsdpChecked(mem: Memory, s: Tables)
    ensures var r := FirstRsdp(mem);
      (r == 0 || !ChecksumOk(mem, r, 20) ==> Parsed(mem, s) == s.(rsdp := r)) &&
      (r != 0 && ChecksumOk(mem, r, 20) ==> Parsed(mem, s).rsdp == r && Parsed(mem, s).rsdt == Le32(mem, r + 16))
  {
    var r := FirstRsdp(mem);
    if r != 0 && ChecksumOk(mem, r, 20) {
      RsdtChecked(mem, s.(rsdp := r), Le32(mem, r + 16));
    }
  }

  /** A bad RSDT (wrong signature or checksum) records no table. */
  lemma RsdtChecked(mem: Memory, s: Tables, rsdt: nat)
    ensures var t := FromRsdt(mem, s, rsdt);
      t.rsdp == s.rsdp && t.rsdt == rsdt &&
      (!HasSig(mem, rsdt, RSDT_SIG) || !ChecksumOk(mem, rsdt, Le32(mem, rsdt + 4)) ==>
         t.hpet == s.hpet && t.apic == s.apic && t.facp == s.facp && t.hpetBlock == s.hpetBlock)
  {
  }

  /** With a valid RSDT, each of `hpet`, `apic` and `facp` ends at the last
      listed table with its signature, or keeps its value; the HPET base is
      loaded only when an HPET table is known. */
  lemma RsdtRecordsLastMatches(mem: Memory, s: Tables, rsdt: nat)
    requires HasSig(mem, rsdt, RSDT_SIG) && ChecksumOk(mem, rsdt, Le32(mem, rsdt + 4))
    ensures var t := FromRsdt(mem, s, rsdt); var ts := Entries(mem, rsdt);
      var h := LastIndex(mem, ts, HPET_SIG);
      var a := LastIndex(mem, ts, APIC_SIG);
      var f := LastIndex(mem, ts, FACP_SIG);
      t.rsdp == s.rsdp && t.rsdt == rsdt &&
      t.hpet == (if h < 0 then s.hpet else ts[h]) &&
      t.apic == (if a < 0 then s.apic else ts[a]) &&
      t.facp == (if f < 0 then s.facp else ts[f]) &&
      t.hpetBlock == if t.hpet != 0 then Le64(mem, t.hpet + HPET_BASE_OFFSET) else s.hpetBlock
  {
    var ts := Entries(mem, rsdt);
    var hpet := LastMatch(mem, ts, HPET_SIG, s.hpet);
    assert FromRsdt(mem, s, rsdt) ==
      Tables(s.rsdp, rsdt, hpet, LastMatch(mem, ts, APIC_SIG, s.apic), LastMatch(mem, ts, FACP_SIG, s.facp),
             if hpet != 0 then Le64(mem, hpet + HPET_BASE_OFFSET) else s.hpetBlock);
    LastMatchSpec(mem, ts, HPET_SIG, s.hpet);
    LastMatchSpec(mem, ts, APIC_SIG, s.apic);
    LastMatchSpec(mem, ts, FACP_SIG, s.facp);
  }

  class AcpiTables {
    var rsdp: nat
    var rsdt: nat
    var hpet: nat
    var apic: nat
    var facp: nat
    var hpetBlock: nat

    function State(): Tables
      reads this
    {
      Tables(rsdp, rsdt, hpet, apic, facp, hpetBlock)
    }

    /** All pointers null at boot. */
    constructor ()
      ensures State() == Tables(0, 0, 0, 0, 0, 0)
    {
      rsdp, rsdt, hpet, apic, facp, hpetBlock := 0, 0, 0, 0, 0, 0;
    }

    /** The RSDT walk (src/kernel/acpi.c:60-83): every listed table whose
        signature matches overwrites `hpet`, `apic` or `facp`. */
    method Walk(mem: Memory)
      modifies this
      ensures rsdp == old(rsdp) && rsdt == old(rsdt) && hpetBlock == old(hpetBlock)
      ensures hpet == LastMatch(mem, Entries(mem, rsdt), HPET_SIG, old(hpet))
      ensures apic == LastMatch(mem, Entries(mem, rsdt), APIC_SIG, old(apic))
      ensures facp == LastMatch(mem, Entries(mem, rsdt), FACP_SIG, old(facp))
    {
      var count := EntryCount(Le32(mem, rsdt + 4));
      ghost var ts := Entries(mem, rsdt);
      var i := 0;
      while i < count
        invariant i <= count == |ts|
        invariant rsdp == old(rsdp) && rsdt == old(rsdt) && hpetBlock == old(hpetBlock)
        invariant hpet == LastMatch(mem, ts[..i], HPET_SIG, old(hpet))
        invariant apic == LastMatch(mem, ts[..i], APIC_SIG, old(apic))
        invariant facp == LastMatch(mem, ts[..i], FACP_SIG, old(facp))
      {
        var table := Le32(mem, rsdt + HEADER_LEN + 4 * i);
        assert ts[..i + 1][..i] == ts[..i] && ts[i] == table;
        if HasSig(mem, table, HPET_SIG) {
          hpet := table;
        }
        if HasSig(mem, table, APIC_SIG) {
          apic := table;
        }
        if HasSig(mem, table, FACP_SIG) {
          facp := table;
        }
        i := i + 1;
      }
      assert ts[..count] == ts;
    }

    /** `parse_acpi_tables` (src/kernel/acpi.c:27-87). */
    method Parse(mem: Memory)
      modifies this
      ensures State() == Parsed(mem, old(State()))
    {
      rsdp := FindRsdp(mem);
      if rsdp == 0 {
        return;
      }
      var sum := Checksum(mem, rsdp, 20);
      if sum != 0 {
        return;
      }
      ParseRsdt(mem, Le32(mem, rsdp + 16));
    }

    /** src/kernel/acpi.c:42-87, from the RSDT address on. */
    method ParseRsdt(mem: Memory, at: nat)
      modifies this
      ensures State() == FromRsdt(mem, old(State()), at)
    {
      rsdt := at;
      if !HasSig(mem, rsdt, RSDT_SIG) {
        return;
      }
      var len := Le32(mem, rsdt + 4);
      var sum := Checksum(mem, rsdt, len);
      if sum != 0 {
        return;
      }
      Walk(mem);
      if hpet != 0 {
        hpetBlock := Le64(mem, hpet + HPET_BASE_OFFSET);
      }
    }
  }
}
