# PurpOS kernel core in Dafny

This project models the core of the PurpOS hobby kernel for x86-64 and
proves properties about that model. The kernel boots into a text console
with a status row, scrollback and a keyboard driver. Eight parts of it are
modelled:

- **Critical sections** (`CriticalSection`, src/kernel/interrupt.h): the
  nesting counter `int_blocks` behind `no_ints`, `ints_okay_once_on` and
  `ints_okay`, together with the CPU interrupt flag.
- **Strings** (`Strings`, src/strings.c): the hexadecimal digit helpers;
  `M_vsprintf` with `%u`, `%h`, `%s` and a width, on a growing character
  buffer; `strlen`; `M_append`; `dstoui`. `Format` is a reference definition
  of what a format string and its arguments produce. The buffer-building
  method is proved to produce exactly that text.
- **Keyboard driver** (`Keyboard`, src/kernel/keyboard.c):
  - the `keyScanned` state machine over the modifier, caps-lock and E0 flags;
  - the `kbd_cmd` retry policy against a sequence of controller responses;
  - the listener list.
- **Periodic callbacks** (`PeriodicCallback`, src/periodic_callback.c): the
  callback table `pcs`/`len`/`cap` with registration and unregistration.
  Both the code as written and the corrected table are modelled.
- **ACPI discovery** (`Acpi`, src/kernel/acpi.c): `find_rsdp` over a model of
  physical memory, the RSDP and RSDT checksums, and the RSDT walk that
  records the HPET, APIC and FACP tables.
- **Interrupt descriptor table** (`Idt`, src/interrupt.c): `set_handler` as
  16-bit stores into the table, and `init_idt` with its final
  vector→(handler, gate type) table, last writer winning.
- **Console** (`StatusBar` and `Console`, src/console.c):
  - the status row (clock and heap usage) and `writeStatusBar`;
  - `clearScreen`;
  - the terminal's page list with `printcc`, `printCharColor`, `printColor`,
    `print` and `printc`;
  - `scrollUpBy`, `scrollDownBy` and `scrollToBottom` over the window and
    its two scrollback stacks;
  - the `gotInput` key dispatch.
- **User application** (`App`, src/userspace/app.c): `fibNext` and the two
  loops of `main`.

`Machine` and `Arith` hold shared definitions: bytes, powers of two, and
arithmetic lemmas.

How state is represented:
- State that the C code updates in place lives in classes:
  - `Interrupts`, `PeriodicCallbacks`, `AcpiTables` and `FibApp`;
  - `Keyboard`, whose listener list is a `seq`;
  - `Idt.Table`, an array of 16-bit words;
  - `Console.Display`, the 4000-byte text buffer as an `array<byte>`, with
    the scroll stacks as sequences of lines;
  - `Console.Terminal`, its pages as arrays.
- Each method is proved against a specification function. The functions are
  related to one another by lemmas.
- The scrolling model treats the window as a view of a document: the
  scroll-up stack reversed, then the window rows, then the scroll-down
  stack. Scrolling moves the view and never changes the document.

Inputs that the C code reads from hardware or other modules are parameters:
- physical memory, as a function from address to byte;
- the keyboard controller's responses;
- the RTC hour and the heap usage;
- handler addresses;
- the navigation-key codes of the keyboard header.

## Model

| member | source | states |
|---|---|---|
| CriticalSection.Interrupts.NoInts | src/kernel/interrupt.h:14-17 | Interrupts are disabled afterwards, and the counter goes up by one below its 64-bit maximum. |
| CriticalSection.Interrupts.IntsOkayOnceOn | src/kernel/interrupt.h:19-26 | At counter zero a warning is counted and the counter stays zero; otherwise it is decremented. |
| CriticalSection.Interrupts.IntsOkay | src/kernel/interrupt.h:28-33 | The counter is decremented and never wraps below zero. Interrupts are enabled afterwards exactly when the counter is zero or they already were. |
| CriticalSection.IntsOkayOutcome | src/kernel/interrupt.h:19-33 | At counter zero, `ints_okay` logs, keeps the counter at zero and still executes `sti`. At a positive counter it decrements without warning and enables interrupts exactly when the counter reaches zero. |
| CriticalSection.StepKeepsInv | src/kernel/interrupt.h:14-33 | Each primitive keeps the invariant "counter positive ⇒ interrupts disabled". |
| CriticalSection.RunKeepsInv | src/kernel/interrupt.h:14-33 | Any sequence of calls keeps that invariant. |
| CriticalSection.RunCountsDepth | src/kernel/interrupt.h:14-33 | Suppose no prefix over-releases and the counter cannot overflow. Then the counter ends at its start plus the nesting depth, and no warning is logged. |
| CriticalSection.BalancedRestoresCounter | src/kernel/interrupt.h:14-33 | A balanced nest restores the counter and logs nothing. Started from zero, a non-empty nest leaves interrupts enabled. |
| Strings.NibbleToHex | src/strings.c:30 | Characters past '9' are moved onto 'A'.., and others are kept. |
| Strings.HexDigit | src/strings.c:30-34 | A nibble becomes '0'-'9' or 'A'-'F', and reads back as the nibble. |
| Strings.ByteToHexSpec | src/strings.c:32-37 | Two upper-case hex digits, high nibble first, that read back as the byte. |
| Strings.WordToHexSpec | src/strings.c:39-44 | Four upper-case hex digits that read back as the 16-bit word. |
| Strings.DwordToHexSpec | src/strings.c:46-51 | Eight upper-case hex digits that read back as the 32-bit word. |
| Strings.QwordToHexRoundTrip | src/strings.c:53-58 | Sixteen upper-case hex digits, most significant first, that read back in base 16 as the input. |
| Strings.DigitsValue | src/strings.c:111-116 | `n` decimal digits of `u`, read back, give `u` mod 10^n. |
| Strings.DigitAt | src/strings.c:111-116 | Digit `j` is the digit of weight 10^(n-1-j), which is what `u / e` yields with `e` stepping down from 10^19. |
| Strings.TwentyDigits | src/strings.c:107-117 | The 20 digits of a 64-bit value read back as the value itself. |
| Strings.DecimalInto | src/strings.c:107-117 | The digit loop fills `buf[0..20]` with the 20 zero-padded decimal digits of the argument, most significant first. |
| Strings.StripZerosSpec | src/strings.c:133-134 | Stripping leaves at least one character and no leading '0' before another digit, and keeps the numeral's value. |
| Strings.WidthValue | src/strings.c:135-138 | With width `w` the field has exactly `w` digits. Below the length it keeps the rightmost `w`, whose value is the number mod base^w. Otherwise it is zero-padded and keeps the value. |
| Strings.UnpaddedDecimal | src/strings.c:107-134 | `%u` without width: decimal digits, at least one, with no leading zero unless the value is 0 ("0"). Read back, they give the value. |
| Strings.WidthDecimal | src/strings.c:107-139 | `%<w>u` gives exactly `w` decimal digits: `u` mod 10^w when `w < 20`, otherwise `u` zero-padded. |
| Strings.WidthHex | src/strings.c:120-139 | `%<w>h` gives exactly `w` upper-case hex digits: `q` mod 16^w when `w < 16`, otherwise `q` zero-padded. `%0h` gives nothing. |
| Strings.Strlen | src/strings.c:160-164 | The number of characters before the first NUL. |
| Strings.MAppend | src/strings.c:166-177 | A fresh NUL-terminated string holding the content of `s`, then that of `t`, in exactly strlen(s)+strlen(t)+1 characters. |
| Strings.Dstoui | src/strings.c:179-187 | The value mod 2^64 of the maximal leading run of decimal digits; it stops at the first non-digit. |
| Strings.DecimalRoundTrip | src/strings.c:179-187 | `dstoui` applied to the unpadded `%u` text of any 64-bit value returns that value. |
| Strings.Int32 | src/strings.c:100 | The conversion of `dstoui`'s 64-bit result to `int`, as the low 32 bits read as two's complement, in [INT_MIN, INT_MAX]. |
| Strings.Reserve | src/strings.c:84-87 | The buffer doubles when fewer than two characters are left after index `i`, and its contents are kept. |
| Strings.ParseDirective | src/strings.c:94-104 | Returns the index of the conversion character after the width digits, and the width those digits give (-1 without digits). |
| Strings.FieldParts | src/strings.c:106-139 | The '0' padding count and the text of one directive together make up the field that `Format` assigns to it. |
| Strings.WidthParts | src/strings.c:129-139 | The width rule on a digit string, as padding plus text, equals `ApplyWidth` of the digits. |
| Strings.Emit | src/strings.c:142-152 | The output grows by the padding and the text, the index stays below capacity, and the buffer grows to the exact size needed. |
| Strings.ZeroRun | src/strings.c:148-149 | `n` '0's are written from index `i`, and the earlier prefix is kept. |
| Strings.CopyRun | src/strings.c:151-152 | The characters of `t` are written from index `i`, and the earlier prefix is kept. |
| Strings.LiteralProgress | src/strings.c:89-92 | Copying a non-'%' character keeps the output a prefix of `Format`. |
| Strings.DirectiveProgress | src/strings.c:94-152 | Appending one directive's field keeps the output a prefix of `Format`, and consumes exactly one argument. |
| Strings.Directive | src/strings.c:94-152 | One directive: its field is appended, the index stays below capacity, and the format and argument positions advance. |
| Strings.VSprintf | src/strings.c:74-158 | The result is `Format(fmt, args)` followed by NUL, within the final capacity. |
| Strings.FormatLiteral | src/strings.c:89-92 | A format without '%' is copied verbatim. |
| Strings.FormatLiteralThen | src/strings.c:89-92 | Literal characters in front of a format are copied in front of its text. |
| Strings.FormatDirectiveThen | src/strings.c:94-152 | A directive without width in front of a format puts the field of the first argument in front of the rest. |
| Strings.DirectiveNoWidth | src/strings.c:94-99 | Without width digits the width is -1. |
| Strings.DirectiveWidth | src/strings.c:99-104 | Width digits that stand for an `int` give that width. |
| Strings.FormatUnsignedRoundTrip | src/strings.c:107-134 | `dstoui` reads back what `"%u"` renders for a 64-bit value. |
| Strings.FormatHexWidth | src/strings.c:120-139 | `%<w>h` renders exactly `w` characters: the low `w` nibbles of the argument, zero-padded beyond 16. |
| Strings.FormatDecimalWidth | src/strings.c:107-139 | `%<w>u` renders exactly `w` characters: the argument mod 10^w, zero-padded beyond 20. |
| Strings.FormatString | src/strings.c:124-126 | `%s` copies its argument unchanged, with or without width digits. |
| Keyboard.ModifierCodes | src/kernel/keyboard.c:113-138 | 0x1d/0x9d set/clear ctrl, 0x2a/0x36/0xaa/0xb6 set/clear shift and 0x38/0xb8 set/clear alt. The other flags are kept, the E0 flag is cleared, and nothing is emitted. |
| Keyboard.CapsLockToggles | src/kernel/keyboard.c:140-143 | 0x3a toggles caps lock and issues LED command 0xed. Its argument has bit 2 set exactly when caps lock is now on. |
| Keyboard.LetterCodes | src/kernel/keyboard.c:145-202 | Letter codes change no flag and fall in no other table. |
| Keyboard.LetterCase | src/kernel/keyboard.c:145-202 | A letter key emits its letter, upper-case exactly when shift and caps lock differ. |
| Keyboard.ShiftyIgnoresCaps | src/kernel/keyboard.c:145-202 | Digit and symbol keys depend on shift only; caps lock does not change their event. |
| Keyboard.EventCarriesModifiers | src/kernel/keyboard.c:12 | Every emitted event carries the alt, ctrl and shift flags current at the scan. |
| Keyboard.MainSwitchShape | src/kernel/keyboard.c:113-225 | The main switch sets the E0 flag exactly for 0xe0. Any event it emits is the table key with the current flags. |
| Keyboard.E0Flag | src/kernel/keyboard.c:76-80 | After a scan the E0 flag is set exactly when the code was 0xe0. A repeated 0xe0 keeps it set and changes nothing else. |
| Keyboard.FakeShiftIgnored | src/kernel/keyboard.c:83-84 | After 0xe0, the fake shifts 0x2a/0x36 and their releases change only the E0 flag. |
| Keyboard.NavigationCodes | src/kernel/keyboard.c:88-105 | The E0 navigation codes are exactly the listed keypad codes. |
| Keyboard.NavigationOrKeypad | src/kernel/keyboard.c:88-105 | Codes 0x47-0x53 emit navigation keys after 0xe0 and keypad characters without it; 0x48 is Up or '8'. |
| Keyboard.EscapeFallsThrough | src/kernel/keyboard.c:103-110 | An E0-prefixed code outside the escape table is handled as if it came alone; E0 0x1d sets ctrl. |
| Keyboard.UnknownCodes | src/kernel/keyboard.c:218-219 | A code in no table emits nothing and leaves the modifiers alone. |
| Keyboard.Attempts | src/kernel/keyboard.c:52-65 | Between one and three attempts. Every attempt before the last was answered by something other than ACK. |
| Keyboard.AttemptsStopAtAck | src/kernel/keyboard.c:52-65 | The attempts are one plus the number of leading non-ACK responses, capped at three. |
| Keyboard.KbdCmd | src/kernel/keyboard.c:49-68 | Sends (cmd, arg) once per attempt and logs the responses among them that are neither ACK nor RESEND. Its effect on the counter is one `no_ints`/`ints_okay` pair. |
| Keyboard.RegisterThenUnregister | src/kernel/keyboard.c:228-240 | Registering a listener and then unregistering it restores the list. |
| Keyboard.Deliveries | src/kernel/keyboard.c:25-32 | Each listener, head first, receives the event once. |
| Keyboard.Keyboard.constructor | src/kernel/keyboard.c:17-23 | All flags are clear and there is no list. |
| Keyboard.Keyboard.KeyScanned | src/kernel/keyboard.c:74-226 | The flags follow `Scan`, every listener receives the event if there is one, and the caps-lock LED command is sent when `Scan` asks for it. |
| Keyboard.Keyboard.Apply | src/kernel/keyboard.c:113-143 | The effects of a decoded scan: the new flags, the LED command and the listener calls. |
| Keyboard.Keyboard.GotInput | src/kernel/keyboard.c:25-32 | One call per listener, in list order. |
| Keyboard.Keyboard.Register | src/kernel/keyboard.c:228-233 | The list is created on first use, and the listener is pushed at its head. |
| Keyboard.Keyboard.Unregister | src/kernel/keyboard.c:235-240 | Without a list nothing changes; otherwise the first equal listener is removed. |
| Keyboard.Keyboard.Init | src/kernel/keyboard.c:70-72 | Sends command 0xf3 with argument 0x20 (0.5 s delay, 30 per second) under the `kbd_cmd` retry policy. |
| PeriodicCallback.RemoveEntry | src/periodic_callback.c:53-64 | The intended removal: the first entry equal to `c` is dropped and the others keep their order. Without a match nothing changes. |
| PeriodicCallback.RegisterThenUnregister | src/periodic_callback.c:13-65 | Registering `c` and then unregistering it restores the table when `c` was not registered before. |
| PeriodicCallback.RemoveEntryKeepsOthers | src/periodic_callback.c:38-49 | When `c` is registered, the result is the table with its first entry equal to `c` cut out, so the others keep their order. As a multiset it loses exactly one `c`. |
| PeriodicCallback.RemoveEntryCount | src/periodic_callback.c:38-49 | As a multiset, unregistering removes one `c` at most. |
| PeriodicCallback.PeriodicCallbacks.constructor | src/periodic_callback.c:9-11 | Nothing is allocated and nothing is registered. |
| PeriodicCallback.PeriodicCallbacks.Register | src/periodic_callback.c:13-31 | The first registration allocates room for 10, and the room doubles when `len + 1 >= cap`. The callback is appended, earlier entries are unchanged, and the table invariant is kept. |
| PeriodicCallback.PeriodicCallbacks.Unregister | src/periodic_callback.c:33-65 | Before the first registration nothing changes; otherwise the entries become `RemoveEntry` of the old ones. |
| PeriodicCallback.ShiftOut | src/periodic_callback.c:38-49 | The shifting loop leaves the first `n` (or `n-1` after a match) slots equal to `RemoveEntry` of the old ones. |
| PeriodicCallback.RegisterAsWritten | src/periodic_callback.c:16-28 | The code as written: it grows to `cap * 2` bytes, does not update `cap`, and reports whether the store at `len` is in bounds. |
| PeriodicCallback.TenthRegistrationOverflows | src/periodic_callback.c:19-28 | As written, the tenth registration shrinks the block to two slots and stores at index 9, out of bounds. |
| PeriodicCallback.TenRegistrations | src/periodic_callback.c:13-31 | With the correction, ten registrations leave a table of capacity 20 holding all ten in order. |
| PeriodicCallback.UnregisterAsWritten | src/periodic_callback.c:38-49 | The code as written: `len` always drops by one, whether or not anything matched, and wraps to 2^64 - 1 from zero. The loop stays inside the table exactly when the table is not empty. |
| PeriodicCallback.UnregisterRemovesTheNeighbour | src/periodic_callback.c:39-49 | As written, unregistering the first of two callbacks removes the second. |
| PeriodicCallback.UnregisterWithoutMatch | src/periodic_callback.c:39-49 | As written, unregistering an unknown callback still drops the last entry. |
| PeriodicCallback.EmptyUnregisterWraps | src/periodic_callback.c:39-49 | As written, unregistering from an allocated empty table reads entries that are not there and leaves `len` at 2^64 - 1; the intended removal leaves the table empty. |
| Acpi.FirstRsdpSpec | src/kernel/acpi.c:15-25 | The result is 0 or a 16-byte-aligned address in [0x80000, 0xa0000) or [0xe0000, 0xfffff) holding "RSD PTR ". No earlier candidate in scan order holds it, and the result is 0 when none does. |
| Acpi.ScanRangeSpec | src/kernel/acpi.c:18-22 | One scanning loop returns 0 or an aligned address in its range holding the signature, and no aligned address before it (or in the whole range, for 0) holds it. |
| Acpi.FindRsdp | src/kernel/acpi.c:15-25 | The two loops return `FirstRsdp`. |
| Acpi.Checksum | src/kernel/acpi.c:33-35 | The 8-bit accumulator is the byte sum of the range mod 256. |
| Acpi.SingleByteErrorDetected | src/kernel/acpi.c:33-37 | A table with a valid checksum fails it after any single-byte change. |
| Acpi.EntryCount | src/kernel/acpi.c:60 | `(len - 36) / 4` for lengths of at least 36, computed in 32 bits. |
| Acpi.Entries | src/kernel/acpi.c:60-70 | The entry list has that many 32-bit little-endian addresses from offset 36. |
| Acpi.LastIndex | src/kernel/acpi.c:69-83 | The index of the last listed table with the signature, or -1; no later table has it. |
| Acpi.LastMatchSpec | src/kernel/acpi.c:69-83 | The last-writer-wins walk ends at the last matching table, or keeps the old value when none matches. |
| Acpi.RsdpChecked | src/kernel/acpi.c:28-42 | Without an RSDP, or with a bad RSDP checksum, only `rsdp` changes. Otherwise parsing goes on at the 32-bit RSDT address at offset 16. |
| Acpi.RsdtChecked | src/kernel/acpi.c:44-58 | A wrong "RSDT" signature or a bad checksum over its length records no table. |
| Acpi.RsdtRecordsLastMatches | src/kernel/acpi.c:60-86 | With a valid RSDT, `hpet`, `apic` and `facp` each end at the last listed table with their signature, or keep their value. The HPET base is loaded from offset 44 only when `hpet` is set. |
| Acpi.AcpiTables.constructor | src/kernel/acpi.c:7-13 | All pointers are null. |
| Acpi.AcpiTables.Walk | src/kernel/acpi.c:60-83 | Each pointer becomes the last match of its signature; the others are unchanged. |
| Acpi.AcpiTables.Parse | src/kernel/acpi.c:27-87 | The state afterwards is `Parsed(mem, old state)`. |
| Acpi.AcpiTables.ParseRsdt | src/kernel/acpi.c:42-87 | The state afterwards is `FromRsdt(mem, old state, rsdt)`. |
| Idt.Attributes | src/interrupt.c:184 | The attribute word has the present bit set and the gate type in bits 8-11. |
| Idt.ShiftedPieces | src/interrupt.c:177-182 | The pieces stored as the offset is shifted right 16 bits at a time are entry words 0, 3, 4 and 5. |
| Idt.SplitJoin | src/interrupt.c:177-182 | Splitting a 64-bit address into four 16-bit pieces and joining them gives the address again. |
| Idt.InstallSpec | src/interrupt.c:175-186 | The entry decodes to the handler address, selector 8 and a present gate of the given type. Every other entry, and bytes 12-15 of this one, are unchanged. |
| Idt.Table.SetHandler | src/interrupt.c:175-186 | The words become `Install` of the old ones. |
| Idt.Table.Set | src/interrupt.c:175-186 | `set_handler` with the table of decoded gates kept alongside. |
| Idt.Final | src/interrupt.c:188-209 | Vector 0 is divide-by-zero, 1-31 the generic trap handlers (trap gates), 0x21 keyboard and 0x25 RTC, and the rest default interrupt handlers (interrupt gates). |
| Idt.Table.InitIdt | src/interrupt.c:188-209 | Every vector decodes to `Final`, and bytes 12-15 of every entry are as before. |
| Idt.Table.SetDefaults | src/interrupt.c:189-192 | Vectors 0-31 get the default trap handler as trap gates, and 32-255 the default interrupt handler as interrupt gates. |
| Idt.Table.SetIrqsAndErrorTraps | src/interrupt.c:194-204 | After the IRQ and error-code handlers, the vectors from 32 up are final. |
| Idt.Table.SetGenericTraps | src/interrupt.c:206-209 | After the 32 generic traps and the divide-by-zero handler, all vectors are final. |
| Idt.Frame.Handle | src/interrupt.c:124-173 | The generic trap handlers and the divide-by-zero handler set the frame's ip to `waitloop`; the other handlers leave it. |
| Idt.ExceptionsHalt | src/interrupt.c:188-209 | After `init_idt` every exception vector lands in a handler that resumes at `waitloop`, and no hardware interrupt does. |
| StatusBar.ClockHour | src/console.c:162-163 | The hour is in 1..12 and congruent to the RTC hour mod 12. |
| StatusBar.Meridiem | src/console.c:161 | "PM" exactly when the RTC hour is at least 12, otherwise "AM". |
| StatusBar.ClockReadBack | src/console.c:161-163 | Hour and suffix determine the RTC hour; 0 is "12 AM" and 12 is "12 PM". |
| StatusBar.MemUnit | src/console.c:131-137 | "K" exactly from 1024 bytes on, with the value rounded down to kibibytes; otherwise the byte count with "bytes". |
| StatusBar.FitField | src/console.c:141-151 | Exactly 24 characters: the first 24 of a longer text, or a shorter one right-aligned with spaces. |
| StatusBar.MemFormat | src/console.c:139 | The format gives "Heap used: ", the decimal value, a space and the unit. |
| StatusBar.MemUseLayout | src/console.c:139-153 | The field is 24 characters, written at column 56, and is `FitField` of the formatted text. |
| StatusBar.SmallHeapFits | src/console.c:141-151 | Below 1024 bytes the text is never cut, only padded. |
| Console.StatusWritten | src/console.c:119-126 | Nothing when `loc >= 80`. Otherwise the glyph bytes of columns `loc` onwards, up to the end of the row, take the characters. |
| Console.StatusWrittenSpec | src/console.c:119-126 | Only glyph (even) bytes of the status row change; column `loc + k` shows `s[k]` as far as the row goes, and attribute bytes never change. |
| Console.StatusOffsetsAsWritten | src/console.c:123-124 | As written, with the bound `l < 160`, the offsets reach past the status row. |
| Console.StatusBarOverrun | src/console.c:123-124 | As written, twenty characters at column 70 store past the 4000 bytes of the text buffer. |
| Console.Display.WriteStatusBar | src/console.c:119-126 | The text buffer becomes `StatusWritten`. |
| Console.MemUseTextPrintable | src/console.c:139-153 | The heap-usage field holds no NUL, so all 24 characters are written. |
| Console.Display.UpdateMemUse | src/console.c:128-155 | The 24-character field lands on columns 56-79 of the status row. |
| Console.Display.ClearScreen | src/console.c:183-193 | Every window cell becomes 0x0700, the status row is kept, `cur` returns to 0, and the scroll stacks are kept. |
| Console.Display.BlankWindow | src/console.c:186-187 | The 64-bit stores of 0x0700070007000700 blank every window byte. |
| Console.WindowDoc | src/console.c:398-473 | Every window onto a document shows that document. |
| Console.ViewIsWindow | src/console.c:398-473 | A view is the window at its own position in its document. |
| Console.ScrollUpKeepsDoc | src/console.c:398-435 | Scrolling up never changes the document. |
| Console.ScrollDownKeepsDoc | src/console.c:437-473 | Scrolling down never changes the document. |
| Console.UpIsWindow | src/console.c:398-435 | Scrolling up by `k`, at most the stack's length, gives the window `k` lines higher. |
| Console.WindowDown | src/console.c:437-473 | Scrolling down by `k` with at least `k` lines below gives the window `k` lines lower. |
| Console.ScrollUpThenDown | src/console.c:398-473 | Scrolling up by `k` and down by `k` restores the window and both stacks. |
| Console.ScrollToBottomEmpties | src/console.c:285-287 | Scrolling down by 2^64 - 1 empties the scroll-down stack when its length fits 32 bits. |
| Console.UpScreen | src/console.c:413-434 | After `k` lines, the top `k` rows come off the scroll-up stack with the nearest at the bottom, and the old window moves down by `k`. |
| Console.UpShape | src/console.c:413-434 | The lines that `scrollUpBy` moves make up the window `k` lines higher. |
| Console.ScrollUpResult | src/console.c:413-434 | `ScrollUpView` equals what the loops of `scrollUpBy` move. |
| Console.DownScreen | src/console.c:447-469 | After `k` lines, the bottom `k` rows come off the scroll-down stack, and the old window moves up by `k`. |
| Console.DownShape | src/console.c:447-469 | The lines that `scrollDownBy` moves make up the window `k` lines lower. |
| Console.ScrollDownResult | src/console.c:447-469 | `ScrollDownView` equals what the loops of `scrollDownBy` move. |
| Console.Display.ScrollUpBy | src/console.c:398-435 | The view becomes `ScrollUpView`. The cursor is hidden unless the stack is absent or empty. The status row is kept. |
| Console.Display.MoveBelow | src/console.c:413-420 | `k` lines go onto the scroll-down stack: window rows bottom first, then lines from the scroll-up stack. |
| Console.Display.BottomRowsOnto | src/console.c:413-418 | Window rows, bottom first, are pushed onto the scroll-down stack: at most `n`, `l` and 24 of them. |
| Console.Display.ShiftRowsDown | src/console.c:425-427 | Rows from `k` on take the rows `k` above them. |
| Console.Display.FillFromAbove | src/console.c:429-434 | The top rows come off the scroll-up stack, with its nearest line at the bottom. |
| Console.Display.ScrollDownBy | src/console.c:437-473 | The view becomes `ScrollDownView`. The cursor is shown on the terminal once the scroll-down stack is empty. The status row is kept. |
| Console.Display.MoveAbove | src/console.c:447-454 | `k` lines go onto the scroll-up stack: window rows top first, then lines from the scroll-down stack. |
| Console.Display.TopRowsOnto | src/console.c:447-452 | Window rows, top first, are pushed onto the scroll-up stack: at most `n`, `l` and 24 of them. |
| Console.Display.ShiftRowsUp | src/console.c:459-462 | Rows above `24 - k` take the rows `k` below them. |
| Console.Display.FillFromBelow | src/console.c:464-469 | The bottom rows come off the scroll-down stack. |
| Console.Display.ScrollToBottom | src/console.c:285-287 | `scrollDownBy(2^64 - 1)`: the view becomes the bottom of the document. |
| Console.Cells | src/console.c:226-231 | A non-newline appends one (glyph, colour) cell. A newline appends NUL-glyph cells to the end of its row. |
| Console.RenderExtends | src/console.c:239-243 | Printing only appends to the text, at least one cell per character. |
| Console.RenderAppend | src/console.c:239-243 | Printing `a` then `b` is printing `a + b`. |
| Console.NewlineEndsRow | src/console.c:227-229 | After a newline the text ends on a row boundary. |
| Console.NewPageAsWritten | src/console.c:88-95 | As written, only bytes 0-7 of the new page become blank; the rest keep the allocator's contents. |
| Console.NewPageAsWrittenNotBlank | src/console.c:91-92 | On memory that held 0xFF, the page as written is not blank. |
| Console.NewPage | src/console.c:88-95 | Corrected: a fresh page in which every cell is the blank word 0x0700. |
| Console.Terminal.Put | src/console.c:221-224 | One (glyph, colour) cell is appended, and the write position advances by 2. |
| Console.Terminal.PutCells | src/console.c:226-231 | The text grows by exactly the cells of the character. |
| Console.Terminal.PutBlanks | src/console.c:227-229 | Blank cells in the given colour fill the next `n` bytes. |
| Console.Terminal.NextPage | src/console.c:233-236 | A fresh blank page is appended and becomes the target. The text and earlier pages are unchanged. |
| Console.Terminal.PrintCharColor | src/console.c:226-237 | The text grows by the cells of `c`. At most one fresh page is added, and earlier pages are kept. |
| Console.Terminal.PrintColor | src/console.c:239-249 | The text grows by `Render` of the string's content. |
| Console.Terminal.Print | src/console.c:251-253 | `printColor` in colour 0x07. |
| Console.Terminal.Printc | src/console.c:255-264 | One character in colour 0x07. |
| Console.Dispatch | src/console.c:475-512 | Scroll actions happen only for unmodified keys, by 1 line or a window. Typing happens only on the terminal without alt or ctrl. Clearing happens only with ctrl. |
| Console.KeyByte | src/console.c:495 | The byte `printc` receives: a character's code, or a navigation key's driver code. |
| Console.TypeKey | src/console.c:493-495 | The view scrolls to the bottom, the key's cells are appended to the terminal text, and the status row is kept. |
| Console.GotInput | src/console.c:475-514 | Each dispatched action has its effect: scroll up or down by `ScrollUpView`/`ScrollDownView`, typing scrolls to the bottom and prints, clearing blanks the window. Other keys change nothing. The status row is kept in every case. |
| App.FibApp.FibNext | src/userspace/app.c:8-12 | (a, b) becomes (b, a + b mod 2^64). |
| App.FibApp.FibUntilLarge | src/userspace/app.c:15-19 | Ends on consecutive Fibonacci numbers with a < 10^19 <= b < 2^64, so the sum never overflows. |
| App.FibApp.CountChunk | src/userspace/app.c:33-35 | Ends with a == chunk and prints only 0. |
| App.FibApp.Run | src/userspace/app.c:14-36 | The Fibonacci loop's result, then a == chunk with only 0 printed. |

## Left out

- Port I/O is not modelled. This covers `updateCursorPosition`, `hideCursor`
  and `showCursor` (cursor visibility is a field), `kbd_out`/`kbd_read_resp`
  polling (responses are an input sequence), and the `init_pic` outb
  sequence.
- Logging, `dumpFrame` and the `waitloop` assembly are not modelled; the
  handlers are modelled only by their effect on the frame's ip.
- `showTerminal`, `showLogs` and the log replay in src/console.c do not
  compile as written. They are dispatch outcomes that change nothing in the
  model.
- There is one terminal. The `terms[]`/`at` selection and screen
  synchronisation are not modelled.
- `Console.Terminal.PrintCharColor` models the evident intent, because the
  code does not compile:
  - it uses the global `cur` and `BUF_LINES`, and misspells
    `terms[term].cur`;
  - the model uses the terminal's own write position and a page of
    `PG_LINES` rows.
- `Console.Terminal.PrintColor` states the text produced, not which page
  bytes beyond the text stay untouched.
- `%p` and `%%` are not modelled. `updateClock` and the padding in
  `updateMemUse` rely on them, and the formatter does not handle them. The
  clock text is modelled by its hour and suffix. The heap-usage field is
  modelled as right-aligned with spaces to 24 characters.
- `Strings.VSprintf` requires every directive to be `%u`, `%h` or `%s` and
  to have an argument of the right kind. With any other conversion
  character, the source appends whatever `t` last pointed to.
- `Strings.VSprintf` computes `scap`, `i`, `padw` and `needed` with
  unbounded integers, where the source uses a C `int`. A width near
  `INT_MAX`, such as `%2147483647u`, overflows `needed`, so the buffer is
  not grown and the zeros are written past its end. The model returns the
  formatted text instead.
- `Strings.Emit`: the same applies. Its `needed` does not wrap, and the
  buffer always grows to fit.
- Allocation never fails in the model. `malloc`/`realloc` failure paths are
  not modelled.
- The critical-section brackets inside console and keyboard operations are
  balanced and are not threaded through those methods. `KbdCmd` states the
  counter it leaves.
- Interrupt preemption and concurrency are not modelled. Neither are the
  direct `cli`/`sti` in src/periodic_callback.c and src/interrupt.c.
- `Console.Display.ScrollUpBy` requires `n >= 1`. With `n == 0` the final
  loop of `scrollUpBy` never ends, because `i >= l` with a `uint32_t` `i`
  never fails. Every caller passes 1, 24 or 2^64 - 1.
- `listLen` is read in 32 bits as the source does. Stacks of 2^32 lines or
  more are covered only through that truncation.
- Navigation-key codes come from keyboard.h, which is not part of this
  model. They are a parameter of `Console.GotInput`.
- The periodic-callback dispatcher, the list library, `setStatusBar`,
  `get_rtc_time` and `memUsed` are not part of this model. The RTC time and
  the heap usage are inputs.
- The messages `main` prints are not modelled. `App.FibApp.CountChunk`
  returns the values it prints.
- src/userspace/sys.c, src/kernel_entry.c and src/malloc.h are not part of
  this model: syscall wrappers, boot wiring and declarations only.

## Findings

| source | as written | input that shows it | evidently intended | confidence | as-written member | corrected member |
|---|---|---|---|---|---|---|
| src/periodic_callback.c:19-20 | grows to `cap * 2` bytes and never updates `cap` | ten registrations: the tenth shrinks the block to two pointer slots and stores at index 9 | grow to `cap * 2` entries and double `cap` | high (not executed) | PeriodicCallback.TenthRegistrationOverflows | PeriodicCallback.TenRegistrations |
| src/periodic_callback.c:39-47 | the shift starts one past the match, so the entry after the match is overwritten | unregister the first of two callbacks A, B: the table keeps A | drop the matching entry, keep the others in order | high (not executed) | PeriodicCallback.UnregisterRemovesTheNeighbour | PeriodicCallback.PeriodicCallbacks.Unregister |
| src/periodic_callback.c:49 | `len--` happens even without a match | unregister a callback never registered: the last entry disappears | leave the table unchanged without a match | high (not executed) | PeriodicCallback.UnregisterWithoutMatch | PeriodicCallback.RemoveEntry |
| src/periodic_callback.c:39 | `len - 1` and `len--` wrap around on an empty allocated table | register one callback, unregister it twice | do nothing on an empty table | high (not executed) | PeriodicCallback.EmptyUnregisterWraps | PeriodicCallback.PeriodicCallbacks.Unregister |
| src/console.c:91-92 | the loop stores through the same pointer, and its trip count `PG_LINES * 160 / 64` is 60 words, so even with `p++` only 480 of the 3840 bytes would be blanked | allocated memory holding 0xFF: byte 8 of the new page stays 0xFF | every cell of the page blank | high (not executed) | Console.NewPageAsWrittenNotBlank | Console.NewPage |
| src/console.c:123 | the loop bound `l < 160` runs past column 79 | twenty characters at column 70 store beyond the 4000-byte text buffer | stop at the end of the row (`l < 80`) | medium (not executed) | Console.StatusBarOverrun | Console.Display.WriteStatusBar |
