/** The interrupt descriptor table set up by src/interrupt.c: `set_handler`
    packs a 64-bit handler address, the kernel code selector and a gate type
    into a 16-byte long-mode gate descriptor (section 6.14.1 of volume 3A of
    the Intel 64 and IA-32 Architectures Software Developer's Manual), and
    `init_idt` fills all 256 vectors, later writes overriding earlier ones.

    The table lives at physical address 0 and is addressed by the source as
    16-bit words, little-endian: entry `vec` is words `8 * vec` to
    `8 * vec + 7`. Handler addresses are decided by the linker, so they are
    a parameter `addr` of the model. */
module Idt {
  import opened Machine

  /** Number of vectors and 16-bit words in the table. */
  const VECTORS: nat := 256
  const WORDS: nat := 8 * VECTORS

  /** The kernel code segment selector: one descriptor past the null one. */
  const CODE_SEG: bv16 := 8
  /** Gate types of the descriptor's type field. */
  const TYPE_TRAP: bv8 := 0xF
  const TYPE_INT: bv8 := 0xE

  /** The handlers `init_idt` installs. `GenericTrap(n)` is the handler
      `trap_handler_0xNN` that the TRAP_N macro generates for vector `n`. */
  datatype Handler =
    | DefaultTrap
    | DefaultInterrupt
    | KeyboardIrq
    | RtcIrq
    | DoubleFault
    | TrapWithError
    | GenericTrap(n: nat)
    | DivideByZero

  /** What a descriptor means to the processor. */
  datatype Gate = Gate(offset: bv64, selector: bv16, attributes: bv16)

  /** The attribute word: the present bit and the gate type. */
  function Attributes(gateType: bv8): (w: bv16)
    ensures w & 0x8000 == 0x8000
    ensures (w >> 8) & 0xF == (gateType as bv16) & 0xF
  {
    0x8000 | ((gateType as bv16) << 8)
  }

  /** Word `k` (0 to 5) of the descriptor `set_handler` writes; words 6 and 7
      (bytes 12-15) are not written. */
  function EntryWord(handler: bv64, gateType: bv8, k: nat): bv16
    requires k < 6
  {
    if k == 0 then (handler & 0xFFFF) as bv16
    else if k == 1 then CODE_SEG
    else if k == 2 then Attributes(gateType)
    else if k == 3 then ((handler >> 16) & 0xFFFF) as bv16
    else if k == 4 then ((handler >> 32) & 0xFFFF) as bv16
    else (handler >> 48) as bv16
  }

  /** The pieces `set_handler` stores as it shifts the offset right by 16
      bits at a time are the entry's offset words. */
  lemma ShiftedPieces(h: bv64, gateType: bv8)
    ensures (h & 0xFFFF) as bv16 == EntryWord(h, gateType, 0)
    ensures ((h >> 16) & 0xFFFF) as bv16 == EntryWord(h, gateType, 3)
    ensures (((h >> 16) >> 16) & 0xFFFF) as bv16 == EntryWord(h, gateType, 4)
    ensures (((h >> 16) >> 16) >> 16) as bv16 == EntryWord(h, gateType, 5)
  {
    assert (h >> 16) >> 16 == h >> 32;
    assert (h >> 32) >> 16 == h >> 48;
  }

  /** The offset from its pieces: bits 0-15, 16-31, 32-47 and 48-63. */
  function Join(w0: bv16, w1: bv16, w2: bv16, w3: bv16): bv64 {
    (w0 as bv64) | ((w1 as bv64) << 16) | ((w2 as bv64) << 32) | ((w3 as bv64) << 48)
  }

  /** How the processor reads entry `vec` of the table `t`. */
  function GateAt(t: seq<bv16>, vec: nat): Gate
    requires |t| == WORDS && vec < VECTORS
  {
    var b := 8 * vec;
    Gate(Join(t[b], t[b + 3], t[b + 4], t[b + 5]),
         t[b + 1], t[b + 2])
  }

  /** The table after `set_handler(vec, handler, gateType)`. */
  function Install(t: seq<bv16>, vec: nat, handler: bv64, gateType: bv8): (r: seq<bv16>)
    requires |t| == WORDS && vec < VECTORS
    ensures |r| == WORDS
  {
    seq(WORDS, j requires 0 <= j < WORDS =>
      if 8 * vec <= j < 8 * vec + 6 then EntryWord(handler, gateType, j - 8 * vec) else t[j])
  }

  /** A table that holds the six words of the entry at `vec` and agrees
      with `t` elsewhere is `Install(t, vec, ...)`. */
  lemma InstallFrom(t: seq<bv16>, r: seq<bv16>, vec: nat, h: bv64, gateType: bv8)
    requires |t| == |r| == WORDS && vec < VECTORS
    requires r[8 * vec] == EntryWord(h, gateType, 0) && r[8 * vec + 1] == EntryWord(h, gateType, 1)
    requires r[8 * vec + 2] == EntryWord(h, gateType, 2) && r[8 * vec + 3] == EntryWord(h, gateType, 3)
    requires r[8 * vec + 4] == EntryWord(h, gateType, 4) && r[8 * vec + 5] == EntryWord(h, gateType, 5)
    requires forall j :: 0 <= j < WORDS && !(8 * vec <= j < 8 * vec + 6) ==> r[j] == t[j]
    ensures r == Install(t, vec, h, gateType)
  {
    var i := Install(t, vec, h, gateType);
    forall j | 0 <= j < WORDS
      ensures r[j] == i[j]
    {
      var b := 8 * vec;
      if j == b {
      } else if j == b + 1 {
      } else if j == b + 2 {
      } else if j == b + 3 {
      } else if j == b + 4 {
      } else if j == b + 5 {
      }
    }
  }

  /** Splitting a 64-bit address into four 16-bit pieces and putting them
      back together gives the address again. */
  lemma SplitJoin(h: bv64, gateType: bv8)
    ensures var w0, w3, w4, w5 :=
        EntryWord(h, gateType, 0), EntryWord(h, gateType, 3), EntryWord(h, gateType, 4), EntryWord(h, gateType, 5);
      Join(w0, w3, w4, w5) == h
  {
  }

  /** After `set_handler` the entry decodes to the handler address, the
      kernel code selector and a present gate of the requested type; every
      other entry, and bytes 12-15 of this one, are as before. */
  lemma InstallSpec(t: seq<bv16>, vec: nat, handler: bv64, gateType: bv8)
    requires |t| == WORDS && vec < VECTORS
    ensures var r := Install(t, vec, handler, gateType);
      GateAt(r, vec) == Gate(handler, CODE_SEG, Attributes(gateType)) &&
      r[8 * vec + 6] == t[8 * vec + 6] && r[8 * vec + 7] == t[8 * vec + 7] &&
      forall v :: 0 <= v < VECTORS && v != vec ==> r[8 * v..8 * v + 8] == t[8 * v..8 * v + 8]
  {
    SplitJoin(handler, gateType);
    var r := Install(t, vec, handler, gateType);
    var b := 8 * vec;
    assert r[b] == EntryWord(handler, gateType, 0);
    assert r[b + 1] == EntryWord(handler, gateType, 1) == CODE_SEG;
    assert r[b + 2] == EntryWord(handler, gateType, 2) == Attributes(gateType);
    assert r[b + 3] == EntryWord(handler, gateType, 3) && r[b + 4] == EntryWord(handler, gateType, 4);
    assert r[b + 5] == EntryWord(handler, gateType, 5);
    forall v | 0 <= v < VECTORS && v != vec
      ensures r[8 * v..8 * v + 8] == t[8 * v..8 * v + 8]
    {
      assert forall j :: 8 * v <= j < 8 * v + 8 ==> r[j] == t[j];
    }
  }

  // ---------------------------------------------------------------------
  // init_idt

  /** A handler with the gate type it is installed as. */
  datatype Entry = Entry(handler: Handler, gateType: bv8)

  /** The table `init_idt` leaves, writes in source order with the last
      one winning: every exception vector gets its generic trap handler
      (which replaces the double-fault and error-code handlers installed
      before), except vector 0, which gets the divide-by-zero handler; the
      keyboard and RTC lines of the primary PIC (remapped to 0x20) are at
      0x21 and 0x25; everything else gets the default interrupt handler.
      Vectors below 32 are trap gates, the rest interrupt gates. */
  function Final(v: nat): (e: Entry)
    ensures e.gateType == if v < 32 then TYPE_TRAP else TYPE_INT
  {
    if v == 0 then Entry(DivideByZero, TYPE_TRAP)
    else if v < 32 then Entry(GenericTrap(v), TYPE_TRAP)
    else if v == 0x21 then Entry(KeyboardIrq, TYPE_INT)
    else if v == 0x25 then Entry(RtcIrq, TYPE_INT)
    else Entry(DefaultInterrupt, TYPE_INT)
  }

  /** The table `t` shows entry `e` at every vector where `tab` says so. */
  ghost predicate Shows(t: seq<bv16>, addr: Handler -> bv64, tab: seq<Option<Entry>>)
    requires |t| == WORDS && |tab| == VECTORS
  {
    forall v :: 0 <= v < VECTORS && tab[v].Some? ==>
      GateAt(t, v) == Gate(addr(tab[v].value.handler), CODE_SEG, Attributes(tab[v].value.gateType))
  }

  /** A handler that redirects the interrupted frame to `waitloop`. */
  predicate Halts(h: Handler) {
    h.GenericTrap? || h == DivideByZero
  }

  /** After `init_idt` every exception (vectors 0-31) lands in a handler
      that gives up on the interrupted code, and no hardware interrupt does. */
  lemma ExceptionsHalt(v: nat)
    requires v < VECTORS
    ensures Halts(Final(v).handler) <==> v < 32
  {
  }

  /** The descriptor table: 256 entries of eight 16-bit words. */
  class Table {
    var words: array<bv16>

    ghost predicate Valid()
      reads this
    {
      words.Length == WORDS
    }

    constructor (init: seq<bv16>)
      requires |init| == WORDS
      ensures Valid() && words[..] == init
    {
      words := new bv16[WORDS](j requires 0 <= j < WORDS => init[j]);
    }

    /** `set_handler` (src/interrupt.c:175-186). The 32-bit store of bits
        32-63 is the two little-endian words 4 and 5. */
    method SetHandler(vec: nat, handler: bv64, gateType: bv8)
      requires Valid() && vec < VECTORS
      modifies words
      ensures words[..] == Install(old(words[..]), vec, handler, gateType)
    {
      ghost var t := words[..];
      var b := 8 * vec;
      var offset := handler;
      words[b] := (offset & 0xFFFF) as bv16;
      offset := offset >> 16;
      words[b + 3] := (offset & 0xFFFF) as bv16;
      offset := offset >> 16;
      words[b + 4] := (offset & 0xFFFF) as bv16;
      words[b + 5] := (offset >> 16) as bv16;
      words[b + 2] := Attributes(gateType);
      words[b + 1] := CODE_SEG;
      ShiftedPieces(handler, gateType);
      assert words[b] == EntryWord(handler, gateType, 0);
      assert words[b + 1] == EntryWord(handler, gateType, 1);
      assert words[b + 2] == EntryWord(handler, gateType, 2);
      assert words[b + 3] == EntryWord(handler, gateType, 3);
      assert words[b + 4] == EntryWord(handler, gateType, 4);
      assert words[b + 5] == EntryWord(handler, gateType, 5);
      assert forall j :: 0 <= j < WORDS && !(b <= j < b + 6) ==> words[j] == t[j];
      InstallFrom(t, words[..], vec, handler, gateType);
    }

    /** `set_handler` for handler `e.handler` located at `addr`, with the
        table of what the words show kept alongside. */
    method Set(vec: nat, e: Entry, addr: Handler -> bv64, ghost tab: seq<Option<Entry>>)
        returns (ghost tab': seq<Option<Entry>>)
      requires Valid() && vec < VECTORS && |tab| == VECTORS && Shows(words[..], addr, tab)
      modifies words
      ensures |tab'| == VECTORS && tab' == tab[vec := Some(e)] && Shows(words[..], addr, tab')
      ensures forall j :: 0 <= j < WORDS && j % 8 >= 6 ==> words[j] == old(words[j])
    {
      ghost var t := words[..];
      SetHandler(vec, addr(e.handler), e.gateType);
      InstallSpec(t, vec, addr(e.handler), e.gateType);
      tab' := tab[vec := Some(e)];
      forall v | 0 <= v < VECTORS && v != vec
        ensures GateAt(words[..], v) == GateAt(t, v)
      {
        assert words[..][8 * v..8 * v + 8] == t[8 * v..8 * v + 8];
        assert forall j :: 8 * v <= j < 8 * v + 8 ==> words[..][j] == t[j];
      }
      forall j | 0 <= j < WORDS && j % 8 >= 6
        ensures words[j] == t[j]
      {
        var v := j / 8;
        if v != vec {
          assert words[..][8 * v..8 * v + 8] == t[8 * v..8 * v + 8];
          assert words[..][8 * v + j % 8] == t[8 * v + j % 8];
        }
      }
    }

    /** `init_idt` (src/interrupt.c:188-209), PIC programming left out: the
        table afterwards is `Final`, and bytes 12-15 of every entry are as
        before. */
    method InitIdt(addr: Handler -> bv64)
      requires Valid()
      modifies words
      ensures forall v :: 0 <= v < VECTORS ==>
        GateAt(words[..], v) == Gate(addr(Final(v).handler), CODE_SEG, Attributes(Final(v).gateType))
      ensures forall j :: 0 <= j < WORDS && j % 8 >= 6 ==> words[j] == old(words[j])
    {
      var tab := SetDefaults(addr);
      tab := SetIrqsAndErrorTraps(addr, tab);
      tab := SetGenericTraps(addr, tab);
      assert forall v :: 0 <= v < VECTORS ==> tab[v] == Some(Final(v));
    }

    /** The two default loops of `init_idt` (src/interrupt.c:189-192). */
    method SetDefaults(addr: Handler -> bv64) returns (ghost tab: seq<Option<Entry>>)
      requires Valid()
      modifies words
      ensures |tab| == VECTORS && Shows(words[..], addr, tab)
      ensures forall v :: 0 <= v < 32 ==> tab[v] == Some(Entry(DefaultTrap, TYPE_TRAP))
      ensures forall v :: 32 <= v < VECTORS ==> tab[v] == Some(Entry(DefaultInterrupt, TYPE_INT))
      ensures forall j :: 0 <= j < WORDS && j % 8 >= 6 ==> words[j] == old(words[j])
    {
      tab := seq(VECTORS, v => None);
      var i := 0;
      while i < 32
        invariant i <= 32 && |tab| == VECTORS && Shows(words[..], addr, tab)
        invariant forall v :: 0 <= v < i ==> tab[v] == Some(Entry(DefaultTrap, TYPE_TRAP))
        invariant forall v :: i <= v < VECTORS ==> tab[v] == None
        invariant forall j :: 0 <= j < WORDS && j % 8 >= 6 ==> words[j] == old(words[j])
      {
        tab := Set(i, Entry(DefaultTrap, TYPE_TRAP), addr, tab);
        i := i + 1;
      }
      while i < VECTORS
        invariant 32 <= i <= VECTORS && |tab| == VECTORS && Shows(words[..], addr, tab)
        invariant forall v :: 0 <= v < 32 ==> tab[v] == Some(Entry(DefaultTrap, TYPE_TRAP))
        invariant forall v :: 32 <= v < i ==> tab[v] == Some(Entry(DefaultInterrupt, TYPE_INT))
        invariant forall v :: i <= v < VECTORS ==> tab[v] == None
        invariant forall j :: 0 <= j < WORDS && j % 8 >= 6 ==> words[j] == old(words[j])
      {
        tab := Set(i, Entry(DefaultInterrupt, TYPE_INT), addr, tab);
        i := i + 1;
      }
    }

    /** The IRQ handlers and the traps that push an error code
        (src/interrupt.c:194-204): the upper vectors are then final. */
    method SetIrqsAndErrorTraps(addr: Handler -> bv64, ghost tab: seq<Option<Entry>>) returns (ghost tab': seq<Option<Entry>>)
      requires Valid() && |tab| == VECTORS && Shows(words[..], addr, tab)
      requires forall v :: 32 <= v < VECTORS ==> tab[v] == Some(Entry(DefaultInterrupt, TYPE_INT))
      modifies words
      ensures |tab'| == VECTORS && Shows(words[..], addr, tab')
      ensures forall v :: 32 <= v < VECTORS ==> tab'[v] == Some(Final(v))
      ensures forall j :: 0 <= j < WORDS && j % 8 >= 6 ==> words[j] == old(words[j])
    {
      tab' := Set(0x21, Entry(KeyboardIrq, TYPE_INT), addr, tab);
      tab' := Set(0x25, Entry(RtcIrq, TYPE_INT), addr, tab');
      tab' := Set(8, Entry(DoubleFault, TYPE_TRAP), addr, tab');
      var i := 10;
      while i <= 14
        invariant 10 <= i <= 15 && |tab'| == VECTORS && Shows(words[..], addr, tab')
        invariant forall v :: 32 <= v < VECTORS ==> tab'[v] == Some(Final(v))
        invariant forall j :: 0 <= j < WORDS && j % 8 >= 6 ==> words[j] == old(words[j])
      {
        tab' := Set(i, Entry(TrapWithError, TYPE_TRAP), addr, tab');
        i := i + 1;
      }
      tab' := Set(17, Entry(TrapWithError, TYPE_TRAP), addr, tab');
      tab' := Set(21, Entry(TrapWithError, TYPE_TRAP), addr, tab');
      tab' := Set(29, Entry(TrapWithError, TYPE_TRAP), addr, tab');
      tab' := Set(30, Entry(TrapWithError, TYPE_TRAP), addr, tab');
    }

    /** The 32 `set_handler` calls that TRAPS(SET_GTRAP_N, 0) and
        TRAPS(SET_GTRAP_N, 1) expand to, and the divide-by-zero handler
        (src/interrupt.c:206-209): the lower vectors are then final too. */
    method SetGenericTraps(addr: Handler -> bv64, ghost tab: seq<Option<Entry>>) returns (ghost tab': seq<Option<Entry>>)
      requires Valid() && |tab| == VECTORS && Shows(words[..], addr, tab)
      requires forall v :: 32 <= v < VECTORS ==> tab[v] == Some(Final(v))
      modifies words
      ensures |tab'| == VECTORS && Shows(words[..], addr, tab')
      ensures forall v :: 0 <= v < VECTORS ==> tab'[v] == Some(Final(v))
      ensures forall j :: 0 <= j < WORDS && j % 8 >= 6 ==> words[j] == old(words[j])
    {
      tab' := tab;
      var i := 0;
      while i < 32
        invariant i <= 32 && |tab'| == VECTORS && Shows(words[..], addr, tab')
        invariant forall v :: 0 <= v < i ==> tab'[v] == Some(Entry(GenericTrap(v), TYPE_TRAP))
        invariant forall v :: 32 <= v < VECTORS ==> tab'[v] == Some(Final(v))
        invariant forall j :: 0 <= j < WORDS && j % 8 >= 6 ==> words[j] == old(words[j])
      {
        tab' := Set(i, Entry(GenericTrap(i), TYPE_TRAP), addr, tab');
        i := i + 1;
      }
      tab' := Set(0, Entry(DivideByZero, TYPE_TRAP), addr, tab');
    }
  }

  // ---------------------------------------------------------------------
  // What the handlers do to the interrupted frame

  /** The frame the processor pushes (`struct interrupt_frame`). */
  class Frame {
    var ip: bv64
    var cs: bv64
    var flags: bv64
    var sp: bv64
    var ss: bv64

    constructor (ip: bv64, cs: bv64, flags: bv64, sp: bv64, ss: bv64)
      ensures this.ip == ip && this.cs == cs && this.flags == flags && this.sp == sp && this.ss == ss
    {
      this.ip, this.cs, this.flags, this.sp, this.ss := ip, cs, flags, sp, ss;
    }

    /** The effect of handler `h` on the frame (src/interrupt.c:60-70 and
        124-173): the generic trap handlers and the divide-by-zero handler
        make the `iretq` resume at `waitloop`; the others leave the frame
        alone. */
    method Handle(h: Handler, waitloop: bv64)
      modifies this
      ensures ip == if Halts(h) then waitloop else old(ip)
      ensures cs == old(cs) && flags == old(flags) && sp == old(sp) && ss == old(ss)
    {
      match h
      case GenericTrap(_) =>
        ip := waitloop;
      case DivideByZero =>
        ip := waitloop;
      case _ =>
    }
  }
}
