/** The PS/2 scancode decoder of src/kernel/keyboard.c: a state machine over
    the modifier flags, caps lock and the E0-escape flag that turns each scan
    code into at most one key event for the registered listeners, the
    controller command with its retry policy, and the listener list.

    The decoding is a pure transition function `Scan`, which the lemmas below
    are about; the `Keyboard` class holds the driver's static variables and
    its `KeyScanned` method is proved to follow `Scan`. Controller responses
    are an input: `resp(j)` is the byte the controller answers to attempt `j`. */
module Keyboard {
  import opened Machine
  import opened CriticalSection

  /** The key of an input event: a character or one of the navigation keys. */
  datatype Key = Char(c: char) | Home | Up | PgUp | Left | Right | End | Down | PgDown | Ins | Del

  /** `struct input`: the key with the modifier state at the time of the scan. */
  datatype Input = Input(key: Key, alt: bool, ctrl: bool, shift: bool)

  /** The driver's flags `shift_down`, `ctrl_down`, `alt_down`,
      `caps_lock_on` and `last_e0`. */
  datatype Mods = Mods(shift: bool, ctrl: bool, alt: bool, caps: bool, lastE0: bool)

  /** What one scan code does: the new flags, the event passed to the
      listeners, and whether the caps-lock LED command is issued. */
  datatype Outcome = Outcome(next: Mods, event: Option<Input>, led: bool)

  const E0: byte := 0xe0
  const KBD_ACK: byte := 0xfa
  const KBD_RESEND: byte := 0xfe
  const CMD_LEDS: byte := 0xed
  const CMD_TYPEMATIC: byte := 0xf3
  const BACKSPACE: char := 8 as char

  /** The `si` macro: an event for `k` carrying the current modifiers. */
  function Si(m: Mods, k: Key): Input {
    Input(k, m.alt, m.ctrl, m.shift)
  }

  /** The table of E0-escaped codes (src/kernel/keyboard.c:88-105). */
  function EscapedKey(c: byte): Option<Key> {
    match c
    case 0x35 => Some(Char('/'))
    case 0x47 => Some(Home)
    case 0x48 => Some(Up)
    case 0x49 => Some(PgUp)
    case 0x4b => Some(Left)
    case 0x4d => Some(Right)
    case 0x4f => Some(End)
    case 0x50 => Some(Down)
    case 0x51 => Some(PgDown)
    case 0x52 => Some(Ins)
    case 0x53 => Some(Del)
    case _ => None
  }

  /** The `shifty` codes (src/kernel/keyboard.c:145-202): the character
      without and with shift. */
  function ShiftyPair(c: byte): Option<(char, char)> {
    match c
    case 0x02 => Some(('1', '!'))
    case 0x03 => Some(('2', '@'))
    case 0x04 => Some(('3', '#'))
    case 0x05 => Some(('4', '$'))
    case 0x06 => Some(('5', '%'))
    case 0x07 => Some(('6', '^'))
    case 0x08 => Some(('7', '&'))
    case 0x09 => Some(('8', '*'))
    case 0x0a => Some(('9', '('))
    case 0x0b => Some(('0', ')'))
    case 0x0c => Some(('-', '_'))
    case 0x0d => Some(('=', '+'))
    case 0x1a => Some(('[', '{'))
    case 0x1b => Some((']', '}'))
    case 0x27 => Some((';', ':'))
    case 0x28 => Some(('\'', '"'))
    case 0x29 => Some(('`', '~'))
    case 0x33 => Some((',', '<'))
    case 0x34 => Some(('.', '>'))
    case 0x35 => Some(('/', '?'))
    case 0x39 => Some((' ', ' '))
    case _ => None
  }

  /** The `capsy` codes (src/kernel/keyboard.c:162-196): the lower-case letter. */
  function Letter(c: byte): Option<char> {
    match c
    case 0x10 => Some('q')
    case 0x11 => Some('w')
    case 0x12 => Some('e')
    case 0x13 => Some('r')
    case 0x14 => Some('t')
    case 0x15 => Some('y')
    case 0x16 => Some('u')
    case 0x17 => Some('i')
    case 0x18 => Some('o')
    case 0x19 => Some('p')
    case 0x1e => Some('a')
    case 0x1f => Some('s')
    case 0x20 => Some('d')
    case 0x21 => Some('f')
    case 0x22 => Some('g')
    case 0x23 => Some('h')
    case 0x24 => Some('j')
    case 0x25 => Some('k')
    case 0x26 => Some('l')
    case 0x2c => Some('z')
    case 0x2d => Some('x')
    case 0x2e => Some('c')
    case 0x2f => Some('v')
    case 0x30 => Some('b')
    case 0x31 => Some('n')
    case 0x32 => Some('m')
    case _ => None
  }

  /** The codes mapped to one character whatever the modifiers
      (src/kernel/keyboard.c:175-176, 204-217): backspace, enter and the
      keypad. */
  function PlainChar(c: byte): Option<char> {
    match c
    case 0x0e => Some(BACKSPACE)
    case 0x1c => Some('\n')
    case 0x37 => Some('*')
    case 0x47 => Some('7')
    case 0x48 => Some('8')
    case 0x49 => Some('9')
    case 0x4a => Some('-')
    case 0x4b => Some('4')
    case 0x4c => Some('5')
    case 0x4d => Some('6')
    case 0x4e => Some('+')
    case 0x4f => Some('1')
    case 0x50 => Some('2')
    case 0x51 => Some('3')
    case 0x52 => Some('0')
    case 0x53 => Some('.')
    case _ => None
  }

  predicate IsLower(ch: char) {
    'a' <= ch <= 'z'
  }

  predicate IsUpper(ch: char) {
    'A' <= ch <= 'Z'
  }

  function ToUpper(ch: char): char
    requires IsLower(ch)
  {
    (ch as int - 32) as char
  }

  /** The codes that change a modifier flag. */
  predicate IsModifierCode(c: byte) {
    c in {0x1d, 0x9d, 0x2a, 0x36, 0xaa, 0xb6, 0x38, 0xb8}
  }

  /** The key, if any, the main switch maps `c` to (src/kernel/keyboard.c:145-217). */
  function KeyFor(m: Mods, c: byte): Option<Key> {
    match ShiftyPair(c)
    case Some(pair) => Some(Char(if m.shift then pair.1 else pair.0))
    case None =>
      match Letter(c)
      case Some(l) =>
        Some(Char(if (m.shift && !m.caps) || (!m.shift && m.caps) then ToUpper(l) else l))
      case None =>
        match PlainChar(c)
        case Some(ch) => Some(Char(ch))
        case None => None
  }

  /** The main switch and the E0 bookkeeping after it
      (src/kernel/keyboard.c:113-225). */
  function MainSwitch(m: Mods, c: byte): Outcome {
    var n := m.(lastE0 := c == E0);
    if c == 0x9d then Outcome(n.(ctrl := false), None, false)
    else if c == 0x1d then Outcome(n.(ctrl := true), None, false)
    else if c == 0xaa || c == 0xb6 then Outcome(n.(shift := false), None, false)
    else if c == 0x2a || c == 0x36 then Outcome(n.(shift := true), None, false)
    else if c == 0xb8 then Outcome(n.(alt := false), None, false)
    else if c == 0x38 then Outcome(n.(alt := true), None, false)
    else if c == 0x3a then Outcome(n.(caps := !m.caps), None, true)
    else
      match KeyFor(m, c)
      case Some(k) => Outcome(n, Some(Si(m, k)), false)
      case None => Outcome(n, None, false)
  }

  /** `keyScanned` (src/kernel/keyboard.c:74-226) as a transition. */
  function Scan(m: Mods, c: byte): Outcome {
    if m.lastE0 then
      if c == E0 then Outcome(m, None, false)
      else
        var n := m.(lastE0 := false);
        if c % 0x80 == 0x2a || c % 0x80 == 0x36 then Outcome(n, None, false)
        else
          match EscapedKey(c)
          case Some(k) => Outcome(n, Some(Si(m, k)), false)
          case None => MainSwitch(n, c)
    else MainSwitch(m, c)
  }

  /** The argument of the LED command: `caps_lock_on << 2`. */
  function LedArg(caps: bool): byte {
    if caps then 4 else 0
  }

  // ---------------------------------------------------------------------
  // Properties of the decoder

  /** The modifier codes set or clear their flag, leave the others (save
      the E0 flag, which they clear) and emit nothing. */
  lemma ModifierCodes(m: Mods, c: byte)
    requires !m.lastE0 && IsModifierCode(c)
    ensures var o := Scan(m, c);
      o.event == None && !o.led && !o.next.lastE0 && o.next.caps == m.caps &&
      o.next.ctrl == (if c == 0x1d then true else if c == 0x9d then false else m.ctrl) &&
      o.next.shift == (if c in {0x2a, 0x36} then true else if c in {0xaa, 0xb6} then false else m.shift) &&
      o.next.alt == (if c == 0x38 then true else if c == 0xb8 then false else m.alt)
  {
  }

  /** Caps lock toggles its flag and issues the LED command, whose argument
      has bit 2 set exactly when caps lock is now on. */
  lemma CapsLockToggles(m: Mods)
    requires !m.lastE0
    ensures var o := Scan(m, 0x3a);
      o.next == m.(caps := !m.caps) && o.event == None && o.led &&
      (LedArg(o.next.caps) == 4 <==> !m.caps) && (LedArg(o.next.caps) == 0 <==> m.caps)
  {
  }

  /** The letter codes are in no other table and change no flag. */
  lemma LetterCodes(c: byte)
    requires Letter(c).Some?
    ensures IsLower(Letter(c).value) && ShiftyPair(c).None?
    ensures !IsModifierCode(c) && c != 0x3a && c != E0
  {
  }

  /** A letter key emits its letter, upper-case exactly when shift and caps
      lock differ. */
  lemma LetterCase(m: Mods, c: byte)
    requires !m.lastE0 && Letter(c).Some?
    ensures var o := Scan(m, c);
      o.event.Some? && o.event.value.key.Char? &&
      var ch := o.event.value.key.c;
      (IsUpper(ch) <==> m.shift != m.caps) &&
      (IsLower(ch) <==> m.shift == m.caps) &&
      (ch == Letter(c).value || ch == ToUpper(Letter(c).value))
  {
    LetterCodes(c);
    assert Scan(m, c) == MainSwitch(m, c);
  }

  /** Digit and symbol keys depend on shift only: caps lock does not change
      their event. */
  lemma ShiftyIgnoresCaps(m: Mods, c: byte)
    requires !m.lastE0 && ShiftyPair(c).Some?
    ensures Scan(m, c).event == Scan(m.(caps := !m.caps), c).event
    ensures Scan(m, c).event == Some(Si(m, Char(if m.shift then ShiftyPair(c).value.1 else ShiftyPair(c).value.0)))
  {
  }

  /** Every event carries the alt, ctrl and shift flags current at the scan. */
  lemma EventCarriesModifiers(m: Mods, c: byte)
    ensures var o := Scan(m, c);
      o.event.Some? ==>
        o.event.value.alt == m.alt && o.event.value.ctrl == m.ctrl && o.event.value.shift == m.shift
  {
    if !m.lastE0 {
      MainSwitchShape(m, c);
    } else if c != E0 && c % 0x80 != 0x2a && c % 0x80 != 0x36 && EscapedKey(c).None? {
      MainSwitchShape(m.(lastE0 := false), c);
    }
  }

  /** The main switch sets the E0 flag exactly for 0xe0, and any event it
      emits is the key of `KeyFor` with the flags it was given. */
  lemma MainSwitchShape(m: Mods, c: byte)
    ensures var o := MainSwitch(m, c);
      o.next.lastE0 == (c == E0) &&
      (o.event.Some? ==> KeyFor(m, c).Some? && o.event.value == Si(m, KeyFor(m, c).value))
  {
  }

  /** After a scan the E0 flag is set exactly when the code was 0xe0; a
      second 0xe0 keeps it set and changes nothing else. */
  lemma E0Flag(m: Mods, c: byte)
    ensures Scan(m, c).next.lastE0 <==> c == E0
    ensures m.lastE0 && c == E0 ==> Scan(m, c) == Outcome(m, None, false)
  {
    if !m.lastE0 {
      MainSwitchShape(m, c);
    } else if c != E0 && c % 0x80 != 0x2a && c % 0x80 != 0x36 && EscapedKey(c).None? {
      MainSwitchShape(m.(lastE0 := false), c);
    }
  }

  /** The fake shifts after 0xe0 are ignored: only the E0 flag changes. */
  lemma FakeShiftIgnored(m: Mods, c: byte)
    requires m.lastE0 && c in {0x2a, 0x36, 0xaa, 0xb6}
    ensures Scan(m, c) == Outcome(m.(lastE0 := false), None, false)
  {
  }

  /** The navigation codes are also keypad codes, and nothing else. */
  lemma NavigationCodes(c: byte)
    requires EscapedKey(c).Some? && c != 0x35
    ensures PlainChar(c).Some? && ShiftyPair(c).None? && Letter(c).None?
    ensures !IsModifierCode(c) && c != 0x3a && c != E0
    ensures c % 0x80 != 0x2a && c % 0x80 != 0x36
  {
  }

  /** Codes 0x47-0x53 of the navigation block emit navigation keys after
      0xe0 and keypad characters without it; 0x48 is Up or '8'. */
  lemma NavigationOrKeypad(m: Mods, c: byte)
    requires !m.lastE0 && EscapedKey(c).Some? && c != 0x35
    ensures Scan(m.(lastE0 := true), c).event == Some(Si(m, EscapedKey(c).value))
    ensures Scan(m, c).event == Some(Si(m, Char(PlainChar(c).value)))
    ensures Scan(m.(lastE0 := true), 0x48).event == Some(Si(m, Up))
    ensures Scan(m, 0x48).event == Some(Si(m, Char('8')))
  {
    NavigationCodes(c);
    NavigationCodes(0x48);
    assert Scan(m, c) == MainSwitch(m, c);
    assert Scan(m, 0x48) == MainSwitch(m, 0x48);
  }

  /** An E0-prefixed code outside the escape table is handled as if it had
      come alone; E0 0x1d sets ctrl. */
  lemma EscapeFallsThrough(m: Mods, c: byte)
    requires !m.lastE0 && c != E0 && EscapedKey(c).None?
    requires c % 0x80 != 0x2a && c % 0x80 != 0x36
    ensures Scan(m.(lastE0 := true), c) == Scan(m, c)
    ensures Scan(m.(lastE0 := true), 0x1d).next.ctrl
  {
  }

  /** A code in no table emits nothing and leaves the modifiers alone. */
  lemma UnknownCodes(m: Mods, c: byte)
    requires !m.lastE0 && c != E0 && c != 0x3a && !IsModifierCode(c)
    requires ShiftyPair(c).None? && Letter(c).None? && PlainChar(c).None?
    ensures Scan(m, c) == Outcome(m, None, false)
  {
  }

  // ---------------------------------------------------------------------
  // kbd_cmd

  /** How many times `kbd_cmd` sends the command: up to and including the
      first ACK, at most three times. */
  function Attempts(resp: nat -> byte): (n: nat)
    ensures 1 <= n <= 3
    ensures resp(n - 1) == KBD_ACK || n == 3
    ensures forall j :: 0 <= j < n - 1 ==> resp(j) != KBD_ACK
  {
    if resp(0) == KBD_ACK then 1 else if resp(1) == KBD_ACK then 2 else 3
  }

  /** The bytes written to the data port by `n` attempts. */
  function Sent(cmd: byte, arg: byte, n: nat): (r: seq<byte>)
    ensures |r| == 2 * n
    ensures forall j :: 0 <= j < n ==> r[2 * j] == cmd && r[2 * j + 1] == arg
  {
    if n == 0 then [] else Sent(cmd, arg, n - 1) + [cmd, arg]
  }

  /** The responses that are logged as unexpected among the first `n`. */
  function Unexpected(resp: nat -> byte, n: nat): (r: seq<byte>)
    ensures |r| <= n
    ensures forall j :: 0 <= j < |r| ==> r[j] != KBD_ACK && r[j] != KBD_RESEND
  {
    if n == 0 then []
    else
      var v := resp(n - 1);
      Unexpected(resp, n - 1) + (if v != KBD_ACK && v != KBD_RESEND then [v] else [])
  }

  /** `kbd_cmd` (src/kernel/keyboard.c:49-68): inside a critical section,
      send the command and its argument, read the response, and stop at
      ACK; RESEND and any other response lead to another attempt, the
      latter after a log line; never more than three attempts. */
  method KbdCmd(cmd: byte, arg: byte, resp: nat -> byte, cpu: Interrupts)
    returns (sent: seq<byte>, logged: seq<byte>)
    requires cpu.Valid()
    modifies cpu
    ensures cpu.Valid()
    ensures cpu.State() == AfterIntsOkay(AfterNoInts(old(cpu.State())))
    ensures sent == Sent(cmd, arg, Attempts(resp))
    ensures logged == Unexpected(resp, Attempts(resp))
  {
    cpu.NoInts();
    sent, logged := [], [];
    var i := 0;
    while i < 3
      invariant 0 <= i <= 3 && cpu.Valid()
      invariant forall j :: 0 <= j < i ==> resp(j) != KBD_ACK
      invariant sent == Sent(cmd, arg, i) && logged == Unexpected(resp, i)
    {
      sent := sent + [cmd, arg];
      var r := resp(i);
      if r == KBD_ACK {
        i := i + 1;
        break;
      }
      if r != KBD_RESEND {
        logged := logged + [r];
      }
      i := i + 1;
    }
    assert i == Attempts(resp);
    cpu.IntsOkay();
  }

  /** `kbd_cmd` ends as soon as the controller acknowledges: the attempts
      are one plus the number of leading non-ACK responses, capped at three. */
  lemma AttemptsStopAtAck(resp: nat -> byte)
    ensures resp(0) == KBD_ACK ==> Attempts(resp) == 1
    ensures resp(0) != KBD_ACK && resp(1) == KBD_ACK ==> Attempts(resp) == 2
    ensures (forall j :: 0 <= j < 3 ==> resp(j) != KBD_ACK) ==> Attempts(resp) == 3
  {
  }

  // ---------------------------------------------------------------------
  // The driver

  /** A listener, identified by its function pointer. */
  type Listener = nat

  /** `removeFromList`: drop the first item equal to `f`. */
  function RemoveFirst(l: seq<Listener>, f: Listener): (r: seq<Listener>)
    ensures f !in l ==> r == l
    ensures f in l ==> |r| == |l| - 1 && multiset(r) == multiset(l) - multiset{f}
  {
    assert l != [] ==> l == [l[0]] + l[1..];
    if l == [] then []
    else if l[0] == f then l[1..]
    else [l[0]] + RemoveFirst(l[1..], f)
  }

  /** Registering and then unregistering the same listener restores the list. */
  lemma RegisterThenUnregister(l: seq<Listener>, f: Listener)
    ensures RemoveFirst([f] + l, f) == l
  {
  }

  /** The calls `gotInput` makes: each listener of the list, head first,
      receives the event. */
  function Deliveries(l: seq<Listener>, e: Input): (r: seq<(Listener, Input)>)
    ensures |r| == |l| && forall j :: 0 <= j < |l| ==> r[j] == (l[j], e)
  {
    seq(|l|, j requires 0 <= j < |l| => (l[j], e))
  }

  class Keyboard {
    var shiftDown: bool
    var ctrlDown: bool
    var altDown: bool
    var capsLockOn: bool
    var lastE0: bool
    /** `inputCallbackList`: `None` until the first registration creates it. */
    var listeners: Option<seq<Listener>>

    function Flags(): Mods
      reads this
    {
      Mods(shiftDown, ctrlDown, altDown, capsLockOn, lastE0)
    }

    function ListenerList(): seq<Listener>
      reads this
    {
      if listeners.Some? then listeners.value else []
    }

    /** The driver's statics at boot: all flags clear, no list yet. */
    constructor ()
      ensures Flags() == Mods(false, false, false, false, false) && listeners == None
    {
      shiftDown, ctrlDown, altDown, capsLockOn, lastE0 := false, false, false, false, false;
      listeners := None;
    }

    /** `keyScanned` (src/kernel/keyboard.c:74-226): the flags follow `Scan`,
        every listener receives the event if there is one, and the caps-lock
        LED command is sent through `kbd_cmd` when caps lock toggles. */
    method KeyScanned(c: byte, resp: nat -> byte, cpu: Interrupts)
      returns (calls: seq<(Listener, Input)>, sent: seq<byte>)
      requires cpu.Valid()
      modifies this, cpu
      ensures cpu.Valid()
      ensures Flags() == Scan(old(Flags()), c).next && listeners == old(listeners)
      ensures calls == (if Scan(old(Flags()), c).event.Some?
                        then Deliveries(ListenerList(), Scan(old(Flags()), c).event.value) else [])
      ensures sent == (if Scan(old(Flags()), c).led
                       then Sent(CMD_LEDS, LedArg(capsLockOn), Attempts(resp)) else [])
      ensures !Scan(old(Flags()), c).led ==> cpu.State() == old(cpu.State())
    {
      var o := Scan(Flags(), c);
      calls, sent := Apply(o, resp, cpu);
    }

    /** The effects of one scan once decoded: the new flags, the LED command
        and the listener calls. */
    method Apply(o: Outcome, resp: nat -> byte, cpu: Interrupts)
      returns (calls: seq<(Listener, Input)>, sent: seq<byte>)
      requires cpu.Valid()
      modifies this, cpu
      ensures cpu.Valid()
      ensures Flags() == o.next && listeners == old(listeners)
      ensures calls == (if o.event.Some? then Deliveries(ListenerList(), o.event.value) else [])
      ensures sent == (if o.led then Sent(CMD_LEDS, LedArg(o.next.caps), Attempts(resp)) else [])
      ensures !o.led ==> cpu.State() == old(cpu.State())
    {
      calls, sent := [], [];
      shiftDown, ctrlDown, altDown, capsLockOn, lastE0 :=
        o.next.shift, o.next.ctrl, o.next.alt, o.next.caps, o.next.lastE0;
      if o.led {
        var logged;
        sent, logged := KbdCmd(CMD_LEDS, LedArg(capsLockOn), resp, cpu);
      }
      if o.event.Some? {
        calls := GotInput(o.event.value);
      }
    }

    /** `gotInput` (src/kernel/keyboard.c:25-32): one call per listener. */
    method GotInput(e: Input) returns (calls: seq<(Listener, Input)>)
      ensures calls == Deliveries(ListenerList(), e)
    {
      var l := ListenerList();
      calls := [];
      for j := 0 to |l|
        invariant calls == Deliveries(l[..j], e)
      {
        calls := calls + [(l[j], e)];
      }
      assert l[..|l|] == l;
    }

    /** `registerKbdListener` (src/kernel/keyboard.c:228-233): create the
        list on first use, then push `f` at its head. */
    method Register(f: Listener)
      modifies this
      ensures listeners == Some([f] + old(ListenerList()))
      ensures Flags() == old(Flags())
    {
      if listeners.None? {
        listeners := Some([]);
      }
      listeners := Some([f] + listeners.value);
    }

    /** `unregisterKbdListener` (src/kernel/keyboard.c:235-240): nothing
        without a list, otherwise remove `f` from it. */
    method Unregister(f: Listener)
      modifies this
      ensures listeners == if old(listeners).None? then None else Some(RemoveFirst(old(listeners).value, f))
      ensures Flags() == old(Flags())
    {
      if listeners.None? {
        return;
      }
      listeners := Some(RemoveFirst(listeners.value, f));
    }

    /** `init_keyboard` (src/kernel/keyboard.c:70-72): set the typematic
        rate (0.5 s delay, 30 per second) with one controller command. */
    method Init(resp: nat -> byte, cpu: Interrupts) returns (sent: seq<byte>)
      requires cpu.Valid()
      modifies cpu
      ensures cpu.Valid()
      ensures sent == Sent(CMD_TYPEMATIC, 0x20, Attempts(resp))
    {
      var logged;
      sent, logged := KbdCmd(CMD_TYPEMATIC, 0x20, resp, cpu);
    }
  }
}
