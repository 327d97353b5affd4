/** The text console of src/console.c.

    The VGA text buffer holds 25 rows of 80 cells, each cell a glyph byte
    followed by an attribute byte: rows 0-23 are the terminal's window and
    row 24 is the status bar. Scrolling moves whole rows between a
    scroll-up stack (the rows above the window, nearest first), the window
    and a scroll-down stack (the rows below it, nearest first); together
    they form the terminal's document. Terminals keep their output in a
    list of pages; a character appends one cell, a newline blank-fills the
    rest of the row, and a full page makes a fresh one the write target. */
module Console {
  import opened Machine
  import Arith
  import opened Keyboard
  import StatusBar
  import Strings

  /** Rows of the window, bytes of a row, bytes of the text buffer. */
  const LINES: nat := 24
  const ROW: nat := 160
  const VRAM_SIZE: nat := 4000
  /** Byte offset of the status row (`STATUS_LINE`). */
  const STATUS: nat := 3840
  /** Bytes of a terminal page: `PG_LINES` rows. */
  const PAGE: nat := 3840

  const NEWLINE: byte := 10

  /** One row of cells as it is stored in a scroll stack: 160 bytes. */
  type Line = l: seq<byte> | |l| == ROW witness seq(ROW, j => 0 as byte)

  /** Byte `j` of a blank area: the word 0x0700 repeated, little-endian, so
      glyph 0 and attribute 0x07 (light grey on black). */
  function Blank(j: nat): byte {
    if j % 2 == 0 then 0 else 7
  }

  /** The window rows of a text buffer. */
  function Rows(b: seq<byte>): (r: seq<Line>)
    requires |b| == VRAM_SIZE
    ensures |r| == LINES && forall i :: 0 <= i < LINES ==> r[i] == b[ROW * i..ROW * i + ROW]
  {
    seq(LINES, i requires 0 <= i < LINES => b[ROW * i..ROW * i + ROW])
  }

  /** Writing the bytes of row `r` and no others replaces that row of the
      window and leaves the status row alone. */
  lemma RowsUpdate(b: seq<byte>, b': seq<byte>, r: nat, line: Line)
    requires |b| == VRAM_SIZE && |b'| == VRAM_SIZE && r < LINES && |line| == ROW
    requires forall x :: 0 <= x < VRAM_SIZE ==>
      b'[x] == if ROW * r <= x < ROW * r + ROW then line[x - ROW * r] else b[x]
    ensures Rows(b') == Rows(b)[r := line] && b'[STATUS..] == b[STATUS..]
  {
    forall i | 0 <= i < LINES
      ensures Rows(b')[i] == Rows(b)[r := line][i]
    {
      if i == r {
        assert b'[ROW * i..ROW * i + ROW] == line;
      } else {
        assert b'[ROW * i..ROW * i + ROW] == b[ROW * i..ROW * i + ROW];
      }
    }
  }

  // ---------------------------------------------------------------------
  // The document and the window onto it

  /** The two scroll stacks (each may not exist yet) and the window. */
  datatype View = View(up: Option<seq<Line>>, screen: seq<Line>, down: Option<seq<Line>>)

  /** A missing list reads as an empty one. */
  function Items(l: Option<seq<Line>>): seq<Line> {
    if l.Some? then l.value else []
  }

  function Reverse<T>(s: seq<T>): (r: seq<T>)
    ensures |r| == |s| && forall i :: 0 <= i < |s| ==> r[i] == s[|s| - 1 - i]
  {
    seq(|s|, i requires 0 <= i < |s| => s[|s| - 1 - i])
  }

  /** The document: the scroll-up stack read bottom-up, the window, the
      scroll-down stack read top-down. */
  function Doc(v: View): seq<Line> {
    Reverse(Items(v.up)) + v.screen + Items(v.down)
  }

  /** The view of document `d` whose window starts at line `top`. */
  function Window(d: seq<Line>, top: nat): (v: View)
    requires top + LINES <= |d|
    ensures |v.screen| == LINES && v.up.Some? && v.down.Some?
    ensures |v.up.value| == top
  {
    View(Some(Reverse(d[..top])), d[top..top + LINES], Some(d[top + LINES..]))
  }

  /** Every window onto a document shows the same document. */
  lemma WindowDoc(d: seq<Line>, top: nat)
    requires top + LINES <= |d|
    ensures Doc(Window(d, top)) == d
  {
    var v := Window(d, top);
    var r := Reverse(Reverse(d[..top]));
    assert r == d[..top];
    assert d == d[..top] + d[top..top + LINES] + d[top + LINES..];
  }

  /** A view is the window at its own position. */
  lemma ViewIsWindow(v: View)
    requires |v.screen| == LINES && v.up.Some? && v.down.Some?
    ensures Window(Doc(v), |v.up.value|) == v
  {
    var d := Doc(v);
    var top := |v.up.value|;
    assert d[..top] == Reverse(v.up.value);
    assert Reverse(Reverse(v.up.value)) == v.up.value;
    assert d[top..top + LINES] == v.screen;
    assert d[top + LINES..] == v.down.value;
  }

  /** `scrollUpBy(n)`: nothing without a non-empty scroll-up stack (its
      length taken as the 32-bit `listLen`); otherwise the window moves up
      by `n` lines, or to the top of the document. */
  function ScrollUpView(v: View, n: nat): View
    requires |v.screen| == LINES
  {
    if v.up.None? || |v.up.value| % U32 == 0 then v
    else
      var k := if n < |v.up.value| % U32 then n else |v.up.value| % U32;
      Window(Doc(v), |v.up.value| - k)
  }

  /** `scrollDownBy(n)`: nothing without a non-empty scroll-down stack;
      otherwise the window moves down by `n` lines, or to the bottom. */
  function ScrollDownView(v: View, n: nat): View
    requires |v.screen| == LINES
  {
    if v.down.None? || |v.down.value| % U32 == 0 then v
    else
      var k := if n < |v.down.value| % U32 then n else |v.down.value| % U32;
      Window(Doc(v), |Items(v.up)| + k)
  }

  /** Scrolling never changes the document. */
  lemma ScrollUpKeepsDoc(v: View, n: nat)
    requires |v.screen| == LINES
    ensures Doc(ScrollUpView(v, n)) == Doc(v)
  {
    if v.up.Some? && |v.up.value| % U32 != 0 {
      var k := if n < |v.up.value| % U32 then n else |v.up.value| % U32;
      WindowDoc(Doc(v), |v.up.value| - k);
    }
  }

  lemma ScrollDownKeepsDoc(v: View, n: nat)
    requires |v.screen| == LINES
    ensures Doc(ScrollDownView(v, n)) == Doc(v)
  {
    if v.down.Some? && |v.down.value| % U32 != 0 {
      var k := if n < |v.down.value| % U32 then n else |v.down.value| % U32;
      assert k <= |v.down.value|;
      assert |Doc(v)| == |Items(v.up)| + LINES + |v.down.value|;
      WindowDoc(Doc(v), |Items(v.up)| + k);
    }
  }

  /** Scrolling up by `k` lines and down by `k` again restores the window
      and both stacks (a missing scroll-down stack comes back empty). */
  lemma ScrollUpThenDown(v: View, k: nat)
    requires |v.screen| == LINES && v.up.Some? && 1 <= k <= |v.up.value| < U32
    requires k + |Items(v.down)| < U32
    ensures ScrollDownView(ScrollUpView(v, k), k) == v.(down := Some(Items(v.down)))
  {
    var d := Doc(v);
    var top := |v.up.value|;
    var v' := v.(down := Some(Items(v.down)));
    UpIsWindow(v, k);
    var w := ScrollUpView(v, k);
    assert w == Window(d, top - k);
    WindowDown(d, top - k, k);
    assert ScrollDownView(w, k) == Window(d, top);
    assert Doc(v') == d;
    ViewIsWindow(v');
  }

  /** Scrolling up by `k` lines, at most the stack's length, is the window
      `k` lines higher up. */
  lemma UpIsWindow(v: View, k: nat)
    requires |v.screen| == LINES && v.up.Some? && 1 <= k <= |v.up.value| < U32
    ensures |Doc(v)| == |v.up.value| + LINES + |Items(v.down)|
    ensures ScrollUpView(v, k) == Window(Doc(v), |v.up.value| - k)
  {
  }

  /** Scrolling down by `k` from the window at `top`, with at least `k`
      lines below it, gives the window at `top + k`. */
  lemma WindowDown(d: seq<Line>, top: nat, k: nat)
    requires 1 <= k && top + k + LINES <= |d| && |d| - top - LINES < U32
    ensures ScrollDownView(Window(d, top), k) == Window(d, top + k)
  {
    var w := Window(d, top);
    WindowDoc(d, top);
    assert |w.down.value| % U32 == |w.down.value| == |d| - top - LINES;
  }

  /** `scrollToBottom` (`scrollDownBy(2^64 - 1)`) empties the scroll-down
      stack, as long as its length fits `listLen`'s 32 bits. */
  lemma ScrollToBottomEmpties(v: View)
    requires |v.screen| == LINES && (v.down.Some? ==> v.up.Some? && |v.down.value| < U32)
    ensures var w := ScrollDownView(v, U64 - 1);
      Doc(w) == Doc(v) && (w.down.None? || w.down.value == [])
  {
    ScrollDownKeepsDoc(v, U64 - 1);
  }

  /** What `scrollUpBy` shows once it has moved `k` lines: the top `k` rows
      come off the scroll-up stack (nearest at the bottom), the old window
      moves down by `k`. */
  function UpScreen<T>(u: seq<T>, scr: seq<T>, k: nat): (r: seq<T>)
    requires k <= |u| && |scr| == LINES
    ensures |r| == LINES
    ensures forall x :: 0 <= x < LINES ==> r[x] == if x < k then u[k - 1 - x] else scr[x - k]
  {
    if k < LINES then Reverse(u[..k]) + scr[..LINES - k] else Reverse(u[k - LINES..k])
  }

  /** The scroll-down stack after `scrollUpBy` has moved `k` lines. */
  function UpBelow<T>(u: seq<T>, scr: seq<T>, dn: seq<T>, k: nat): seq<T>
    requires k <= |u| && |scr| == LINES
  {
    if k < LINES then scr[LINES - k..] + dn else Reverse(u[..k - LINES]) + (scr + dn)
  }

  /** One more line moved by `scrollUpBy`: a window row while fewer than
      24 have gone, then the head of the scroll-up stack. */
  lemma UpBelowStep<T>(u: seq<T>, scr: seq<T>, dn: seq<T>, i: nat)
    requires i < |u| && |scr| == LINES
    ensures [if i < LINES then scr[LINES - 1 - i] else u[i - LINES]] + UpBelow(u, scr, dn, i) == UpBelow(u, scr, dn, i + 1)
  {
    if i + 1 < LINES {
      UpBelowStepRow(scr, dn, i);
    } else if i + 1 == LINES {
      UpBelowStepLastRow(u, scr, dn);
    } else {
      UpBelowStepStack(u, scr, dn, i);
    }
  }

  lemma UpBelowStepRow<T>(scr: seq<T>, dn: seq<T>, i: nat)
    requires i + 1 < LINES && |scr| == LINES
    ensures [scr[LINES - 1 - i]] + (scr[LINES - i..] + dn) == scr[LINES - 1 - i..] + dn
  {
    assert scr[LINES - 1 - i..] == [scr[LINES - 1 - i]] + scr[LINES - i..];
  }

  lemma UpBelowStepLastRow<T>(u: seq<T>, scr: seq<T>, dn: seq<T>)
    requires |scr| == LINES && LINES <= |u|
    ensures [scr[0]] + (scr[1..] + dn) == Reverse(u[..0]) + (scr + dn)
  {
    assert scr == [scr[0]] + scr[1..];
    assert Reverse(u[..0]) == [];
  }

  lemma UpBelowStepStack<T>(u: seq<T>, scr: seq<T>, dn: seq<T>, i: nat)
    requires LINES <= i < |u| && |scr| == LINES
    ensures [u[i - LINES]] + (Reverse(u[..i - LINES]) + (scr + dn)) == Reverse(u[..i + 1 - LINES]) + (scr + dn)
  {
    ReversePush(u, i - LINES);
  }

  /** `listLen` truncated to 32 bits is at most the true length. */
  lemma ModAtMost(x: nat)
    ensures x % U32 <= x
  {
    if x < U32 {
      Arith.DivModUnique(x, U32, 0, x);
    }
  }

  /** `ScrollUpView` in terms of what `scrollUpBy` moves. */
  lemma ScrollUpResult(v: View, n: nat, k: nat)
    requires |v.screen| == LINES && v.up.Some? && |v.up.value| % U32 != 0 && n >= 1
    requires k == if n < |v.up.value| % U32 then n else |v.up.value| % U32
    ensures 1 <= k <= |v.up.value|
    ensures ScrollUpView(v, n) == View(Some(v.up.value[k..]), UpScreen(v.up.value, v.screen, k),
      Some(UpBelow(v.up.value, v.screen, Items(v.down), k)))
  {
    var u := v.up.value;
    ModAtMost(|u|);
    assert Doc(v) == Reverse(u) + v.screen + Items(v.down);
    UpShape(u, v.screen, Items(v.down), k);
  }

  /** `ScrollDownView` in terms of what `scrollDownBy` moves. */
  lemma ScrollDownResult(v: View, n: nat, k: nat)
    requires |v.screen| == LINES && v.up.Some? && v.down.Some? && |v.down.value| % U32 != 0 && n >= 1
    requires k == if n < |v.down.value| % U32 then n else |v.down.value| % U32
    ensures 1 <= k <= |v.down.value|
    ensures ScrollDownView(v, n) == View(Some(DownAbove(v.up.value, v.screen, v.down.value, k)),
      DownScreen(v.screen, v.down.value, k), Some(v.down.value[k..]))
  {
    var u := v.up.value;
    ModAtMost(|v.down.value|);
    assert Doc(v) == Reverse(u) + v.screen + v.down.value;
    DownShape(u, v.screen, v.down.value, k);
  }

  /** The rows `scrollUpBy` moves make up the window `k` lines higher up. */
  lemma UpShape(u: seq<Line>, scr: seq<Line>, dn: seq<Line>, k: nat)
    requires k <= |u| && |scr| == LINES
    ensures Window(Reverse(u) + scr + dn, |u| - k) ==
      View(Some(u[k..]), UpScreen(u, scr, k), Some(UpBelow(u, scr, dn, k)))
  {
    AboveAfterUp(u, scr + dn, k);
    assert Reverse(u) + scr + dn == Reverse(u) + (scr + dn);
    ScreenAfterUp(u, scr, dn, k);
    BelowAfterUp(u, scr, dn, k);
  }

  lemma AboveAfterUp<T>(u: seq<T>, rest: seq<T>, k: nat)
    requires k <= |u|
    ensures Reverse((Reverse(u) + rest)[..|u| - k]) == u[k..]
  {
    var p := (Reverse(u) + rest)[..|u| - k];
    assert forall i :: 0 <= i < |p| ==> p[i] == Reverse(u)[i];
  }

  lemma ScreenAfterUp<T>(u: seq<T>, scr: seq<T>, dn: seq<T>, k: nat)
    requires k <= |u| && |scr| == LINES
    ensures (Reverse(u) + scr + dn)[|u| - k..|u| - k + LINES] == UpScreen(u, scr, k)
  {
    var d := Reverse(u) + scr + dn;
    var w := d[|u| - k..|u| - k + LINES];
    if k < LINES {
      assert w == Reverse(u)[|u| - k..] + scr[..LINES - k];
      ReverseSuffix(u, k);
    } else {
      assert w == Reverse(u)[|u| - k..|u| - k + LINES];
      ReverseSlice(u, k - LINES, k);
    }
  }

  /** The last `k` lines of a reversed list are its first `k` reversed. */
  lemma ReverseSuffix<T>(u: seq<T>, k: nat)
    requires k <= |u|
    ensures Reverse(u)[|u| - k..] == Reverse(u[..k])
  {
    ReverseSlice(u, 0, k);
    assert u[0..k] == u[..k];
  }

  lemma ReverseSlice<T>(u: seq<T>, i: nat, j: nat)
    requires i <= j <= |u|
    ensures Reverse(u)[|u| - j..|u| - i] == Reverse(u[i..j])
  {
    var a := Reverse(u)[|u| - j..|u| - i];
    var b := Reverse(u[i..j]);
    assert forall x :: 0 <= x < |a| ==> a[x] == u[j - 1 - x] == b[x];
  }

  lemma BelowAfterUp<T>(u: seq<T>, scr: seq<T>, dn: seq<T>, k: nat)
    requires k <= |u| && |scr| == LINES
    ensures (Reverse(u) + scr + dn)[|u| - k + LINES..] == UpBelow(u, scr, dn, k)
  {
    Assoc(Reverse(u), scr, dn);
    if k >= LINES {
      BelowAfterLongUp(u, scr + dn, k - LINES);
    } else {
      DropPast(Reverse(u), scr + dn, |u| - k + LINES);
      DropConcat(scr, dn, LINES - k);
    }
  }

  /** Beyond a window's worth, the rest of the lines moved come from the
      scroll-up stack. */
  lemma BelowAfterLongUp<T>(u: seq<T>, rest: seq<T>, j: nat)
    requires j <= |u|
    ensures (Reverse(u) + rest)[|u| - j..] == Reverse(u[..j]) + rest
  {
    var r := Reverse(u);
    DropConcat(r, rest, |u| - j);
    ReverseSuffix(u, j);
  }

  lemma DropConcat<T>(a: seq<T>, b: seq<T>, i: nat)
    requires i <= |a|
    ensures (a + b)[i..] == a[i..] + b
  {
  }

  lemma DropPast<T>(a: seq<T>, b: seq<T>, i: nat)
    requires |a| <= i <= |a| + |b|
    ensures (a + b)[i..] == b[i - |a|..]
  {
  }

  /** What `scrollDownBy` shows once it has moved `k` lines. */
  function DownScreen<T>(scr: seq<T>, dn: seq<T>, k: nat): (r: seq<T>)
    requires k <= |dn| && |scr| == LINES
    ensures |r| == LINES
    ensures forall x :: 0 <= x < LINES ==> r[x] == if x + k < LINES then scr[x + k] else dn[x + k - LINES]
  {
    if k < LINES then scr[k..] + dn[..k] else dn[k - LINES..k]
  }

  /** The scroll-up stack after `scrollDownBy` has moved `k` lines. */
  function DownAbove<T>(u: seq<T>, scr: seq<T>, dn: seq<T>, k: nat): seq<T>
    requires k <= |dn| && |scr| == LINES
  {
    if k < LINES then Reverse(scr[..k]) + u else Reverse(dn[..k - LINES]) + (Reverse(scr) + u)
  }

  /** One more line moved by `scrollDownBy`: a window row while fewer than
      24 have gone, then the head of the scroll-down stack. */
  lemma DownAboveStep<T>(u: seq<T>, scr: seq<T>, dn: seq<T>, i: nat)
    requires i < |dn| && |scr| == LINES
    ensures [if i < LINES then scr[i] else dn[i - LINES]] + DownAbove(u, scr, dn, i) == DownAbove(u, scr, dn, i + 1)
  {
    if i + 1 < LINES {
      DownAboveStepRow(u, scr, i);
    } else if i + 1 == LINES {
      DownAboveStepLastRow(u, scr, dn);
    } else {
      DownAboveStepStack(u, scr, dn, i);
    }
  }

  lemma DownAboveStepRow<T>(u: seq<T>, scr: seq<T>, i: nat)
    requires i < |scr|
    ensures [scr[i]] + (Reverse(scr[..i]) + u) == Reverse(scr[..i + 1]) + u
  {
    ReversePush(scr, i);
  }

  lemma DownAboveStepLastRow<T>(u: seq<T>, scr: seq<T>, dn: seq<T>)
    requires |scr| == LINES
    ensures [scr[LINES - 1]] + (Reverse(scr[..LINES - 1]) + u) == Reverse(dn[..0]) + (Reverse(scr) + u)
  {
    DownAboveStepRow(u, scr, LINES - 1);
    assert scr[..LINES] == scr;
    assert Reverse(dn[..0]) == [];
  }

  lemma DownAboveStepStack<T>(u: seq<T>, scr: seq<T>, dn: seq<T>, i: nat)
    requires LINES <= i < |dn|
    ensures [dn[i - LINES]] + (Reverse(dn[..i - LINES]) + (Reverse(scr) + u)) == Reverse(dn[..i + 1 - LINES]) + (Reverse(scr) + u)
  {
    ReversePush(dn, i - LINES);
  }

  /** The rows `scrollDownBy` moves make up the window `k` lines further down. */
  lemma DownShape(u: seq<Line>, scr: seq<Line>, dn: seq<Line>, k: nat)
    requires k <= |dn| && |scr| == LINES
    ensures Window(Reverse(u) + scr + dn, |u| + k) ==
      View(Some(DownAbove(u, scr, dn, k)), DownScreen(scr, dn, k), Some(dn[k..]))
  {
    AboveAfterDown(u, scr, dn, k);
    ScreenAfterDown(u, scr, dn, k);
    var d := Reverse(u) + scr + dn;
    assert d[|u| + k + LINES..] == dn[k..];
  }

  lemma AboveAfterDown<T>(u: seq<T>, scr: seq<T>, dn: seq<T>, k: nat)
    requires k <= |dn| && |scr| == LINES
    ensures Reverse((Reverse(u) + scr + dn)[..|u| + k]) == DownAbove(u, scr, dn, k)
  {
    var p := (Reverse(u) + scr + dn)[..|u| + k];
    var q := DownAbove(u, scr, dn, k);
    assert |q| == |p|;
    forall i | 0 <= i < |p|
      ensures Reverse(p)[i] == q[i]
    {
      var j := |p| - 1 - i;
      if j < |u| {
        assert p[j] == Reverse(u)[j];
      } else if j < |u| + LINES {
        assert p[j] == scr[j - |u|];
      } else {
        assert p[j] == dn[j - |u| - LINES];
      }
    }
  }

  lemma ScreenAfterDown<T>(u: seq<T>, scr: seq<T>, dn: seq<T>, k: nat)
    requires k <= |dn| && |scr| == LINES
    ensures (Reverse(u) + scr + dn)[|u| + k..|u| + k + LINES] == DownScreen(scr, dn, k)
  {
    var d := Reverse(u) + scr + dn;
    var w := d[|u| + k..|u| + k + LINES];
    var want := DownScreen(scr, dn, k);
    forall x | 0 <= x < LINES
      ensures w[x] == want[x]
    {
      assert w[x] == d[|u| + k + x];
    }
  }

  lemma Assoc<T>(a: seq<T>, b: seq<T>, c: seq<T>)
    ensures a + b + c == a + (b + c)
  {
  }

  /** Before anything has moved, the stacks are as they were. */
  lemma UpBelowNone<T>(u: seq<T>, scr: seq<T>, dn: seq<T>)
    requires |scr| == LINES
    ensures UpBelow(u, scr, dn, 0) == dn
  {
    assert scr[LINES..] == [];
  }

  lemma DownAboveNone<T>(u: seq<T>, scr: seq<T>, dn: seq<T>)
    requires |scr| == LINES
    ensures DownAbove(u, scr, dn, 0) == u
  {
    assert Reverse(scr[..0]) == [];
  }

  lemma ReverseNoneThen<T>(u: seq<T>, rest: seq<T>)
    ensures Reverse(u[..0]) + rest == rest
  {
    assert Reverse(u[..0]) == [];
  }

  /** The head and the rest of a suffix. */
  lemma PopFront<T>(u: seq<T>, j: nat)
    requires j < |u|
    ensures u[j..][0] == u[j] && u[j..][1..] == u[j + 1..]
  {
  }

  /** A prefix grown by its next element. */
  lemma TakeOneMore<T>(u: seq<T>, j: nat)
    requires j < |u|
    ensures u[..j] + [u[j]] == u[..j + 1]
  {
  }

  /** Two windows with the same rows are equal. */
  lemma SameLines(a: seq<Line>, b: seq<Line>)
    requires |a| == |b| == LINES && forall x :: 0 <= x < LINES ==> a[x] == b[x]
    ensures a == b
  {
  }

  lemma ConsAssoc<T>(x: T, a: seq<T>, b: seq<T>)
    ensures [x] + (a + b) == ([x] + a) + b
  {
  }

  /** Pushing onto the reversed prefix of a list. */
  lemma ReversePush<T>(s: seq<T>, j: nat)
    requires j < |s|
    ensures [s[j]] + Reverse(s[..j]) == Reverse(s[..j + 1])
  {
  }

  // ---------------------------------------------------------------------
  // The status row

  /** The bytes of a C string (`char` stored into `uint8_t`). */
  function ToBytes(s: string): (r: seq<byte>)
    ensures |r| == |s|
  {
    seq(|s|, i requires 0 <= i < |s| => (s[i] as int % 256) as byte)
  }

  /** The text buffer once the glyphs of columns `loc` up to `end` have
      become the characters of `s`. */
  function StatusPartial(b: seq<byte>, s: seq<byte>, loc: nat, end: nat): (r: seq<byte>)
    requires |b| == VRAM_SIZE && loc <= end <= 80 && end - loc <= |s|
    ensures |r| == VRAM_SIZE
  {
    seq(VRAM_SIZE, j requires 0 <= j < VRAM_SIZE =>
      if STATUS + 2 * loc <= j < STATUS + 2 * end && j % 2 == 0 then s[(j - STATUS) / 2 - loc] else b[j])
  }

  /** One more column. */
  lemma StatusStep(b: seq<byte>, s: seq<byte>, loc: nat, end: nat)
    requires |b| == VRAM_SIZE && loc <= end < 80 && end + 1 - loc <= |s|
    ensures StatusPartial(b, s, loc, end + 1) == StatusPartial(b, s, loc, end)[STATUS + 2 * end := s[end - loc]]
  {
  }

  /** The number of columns `writeStatusBar` fills from `loc`. */
  function StatusCount(s: seq<byte>, loc: nat): (n: nat)
    requires loc < 80
    ensures n <= |s| && loc + n <= 80
    ensures n == |s| || loc + n == 80
  {
    if |s| < 80 - loc then |s| else 80 - loc
  }

  /** The text buffer after `writeStatusBar(s, loc)` with the loop bounded
      by the end of the row: nothing when `loc >= 80`; otherwise the glyphs
      of columns `loc` on become the characters of `s` as far as the row
      goes. */
  function StatusWritten(b: seq<byte>, s: seq<byte>, loc: nat): (r: seq<byte>)
    requires |b| == VRAM_SIZE
    ensures |r| == VRAM_SIZE
  {
    if loc >= 80 then b else StatusPartial(b, s, loc, loc + StatusCount(s, loc))
  }

  /** Only the glyph bytes of the status row change; column `loc + k` shows
      `s[k]` as far as the row goes, and every other column keeps its glyph. */
  lemma StatusWrittenSpec(b: seq<byte>, s: seq<byte>, loc: nat)
    requires |b| == VRAM_SIZE
    ensures var r := StatusWritten(b, s, loc);
      (forall j :: 0 <= j < VRAM_SIZE && r[j] != b[j] ==> STATUS <= j && j % 2 == 0) &&
      (forall k :: 0 <= k < |s| && loc + k < 80 ==> r[STATUS + 2 * (loc + k)] == s[k]) &&
      (forall c :: 0 <= c < 80 && (c < loc || c >= loc + |s|) ==> r[STATUS + 2 * c] == b[STATUS + 2 * c])
  {
    var r := StatusWritten(b, s, loc);
    if loc < 80 {
      var n := StatusCount(s, loc);
      forall k | 0 <= k < |s| && loc + k < 80
        ensures r[STATUS + 2 * (loc + k)] == s[k]
      {
        assert k < n;
        assert (STATUS + 2 * (loc + k) - STATUS) / 2 - loc == k;
      }
      forall c | 0 <= c < 80 && (c < loc || c >= loc + |s|)
        ensures r[STATUS + 2 * c] == b[STATUS + 2 * c]
      {
        assert !(STATUS + 2 * loc <= STATUS + 2 * c < STATUS + 2 * (loc + n));
      }
    }
  }

  /** The byte offsets `writeStatusBar` stores to as written, with the loop
      bounded by 160 instead of 80. */
  function StatusOffsetsAsWritten(s: seq<byte>, loc: nat): (r: seq<nat>)
    ensures loc < 80 ==> |r| == if |s| < 160 - loc then |s| else 160 - loc
  {
    if loc >= 80 then []
    else
      var n := if |s| < 160 - loc then |s| else 160 - loc;
      seq(n, k requires 0 <= k < n => STATUS + 2 * (loc + k))
  }

  /** Twenty characters at column 70: as written the last ten land past
      the 4000 bytes of the text buffer. */
  lemma StatusBarOverrun()
    ensures var o := StatusOffsetsAsWritten(seq(20, k => 'x' as int as byte), 70);
      |o| == 20 && o[10] == VRAM_SIZE && o[19] >= VRAM_SIZE
  {
  }

  // ---------------------------------------------------------------------
  // Typed input

  /** What `gotInput` does with a key event. */
  datatype Action =
    | ShowTerminal
    | ScrollUp(n: nat)
    | ScrollDown(n: nat)
    | Type(key: Key)
    | ShowLogs
    | Clear
    | Ignore

  /** The dispatch of `gotInput` (src/console.c:475-514): ctrl-1 switches
      to the terminal, the arrows and page keys without alt or ctrl scroll
      by one line or a window; on the terminal, other keys without
      modifiers are typed, ctrl-2 switches to the logs and ctrl-L clears. */
  function Dispatch(e: Input, onTerm: bool): (a: Action)
    ensures a.ScrollUp? || a.ScrollDown? ==> !e.alt && !e.ctrl && (a.n == 1 || a.n == LINES)
    ensures a.Type? ==> onTerm && !e.alt && !e.ctrl && a.key == e.key
    ensures a == Clear ==> onTerm && e.ctrl && !e.alt
  {
    var plain := !e.alt && !e.ctrl;
    if e.key == Char('1') && !e.alt && e.ctrl then ShowTerminal
    else if e.key == Up && plain then ScrollUp(1)
    else if e.key == Down && plain then ScrollDown(1)
    else if e.key == PgDown && plain then ScrollDown(LINES)
    else if e.key == PgUp && plain then ScrollUp(LINES)
    else if onTerm then
      if plain then Type(e.key)
      else if e.key == Char('2') && !e.alt && e.ctrl then ShowLogs
      else if (e.key == Char('l') || e.key == Char('L')) && !e.alt && e.ctrl then Clear
      else Ignore
    else Ignore
  }

  // ---------------------------------------------------------------------
  // The display

  /** The text buffer, the VRAM write cursor `cur`, the scroll stacks of
      the terminal being shown, and the state of the hardware cursor. */
  class Display {
    var vram: array<byte>
    var cur: nat
    var up: Option<seq<Line>>
    var down: Option<seq<Line>>
    /** `con == CON_TERM`: the main terminal rather than the logs is shown. */
    var onTerm: bool
    /** Whether the hardware cursor is visible (CRTC register 0x0A). */
    ghost var cursorShown: bool

    ghost predicate Valid()
      reads this
    {
      vram.Length == VRAM_SIZE && cur <= STATUS && (down.Some? ==> up.Some?)
    }

    ghost function Screen(): seq<Line>
      reads this, vram
      requires vram.Length == VRAM_SIZE
    {
      Rows(vram[..])
    }

    /** The scroll stacks and the window. */
    ghost function Shown(): View
      reads this, vram
      requires vram.Length == VRAM_SIZE
    {
      View(up, Screen(), down)
    }

    constructor (text: seq<byte>, onTerm: bool)
      requires |text| == VRAM_SIZE
      ensures Valid() && vram[..] == text && cur == 0 && up.None? && down.None? && this.onTerm == onTerm
    {
      vram := new byte[VRAM_SIZE](j requires 0 <= j < VRAM_SIZE => text[j]);
      cur := 0;
      up, down := None, None;
      this.onTerm := onTerm;
      cursorShown := true;
    }

    /** A row copied out into a fresh 160-byte line (`malloc(160)` and the
        copy loop). */
    method ReadRow(r: nat) returns (line: Line)
      requires Valid() && r < LINES
      ensures line == Screen()[r]
    {
      var buf := new byte[ROW];
      for j := 0 to ROW
        invariant forall x :: 0 <= x < j ==> buf[x] == vram[ROW * r + x]
      {
        buf[j] := vram[ROW * r + j];
      }
      line := buf[..];
      assert line == vram[..][ROW * r..ROW * r + ROW];
    }

    /** A line copied into row `r` of the window. */
    method WriteRow(r: nat, line: Line)
      requires Valid() && r < LINES && |line| == ROW
      modifies vram
      ensures Screen() == old(Screen())[r := line]
      ensures vram[STATUS..] == old(vram[STATUS..])
    {
      ghost var b := vram[..];
      for j := 0 to ROW
        invariant forall x :: 0 <= x < VRAM_SIZE ==>
          vram[x] == if ROW * r <= x < ROW * r + j then line[x - ROW * r] else b[x]
      {
        vram[ROW * r + j] := line[j];
      }
      RowsUpdate(b, vram[..], r, line);
    }

    /** Row `src` of the window copied over row `dst`. */
    method CopyRow(dst: nat, src: nat)
      requires Valid() && dst < LINES && src < LINES && dst != src
      modifies vram
      ensures Screen() == old(Screen())[dst := old(Screen())[src]]
      ensures vram[STATUS..] == old(vram[STATUS..])
    {
      ghost var b := vram[..];
      ghost var line := Rows(b)[src];
      for j := 0 to ROW
        invariant forall x :: 0 <= x < VRAM_SIZE ==>
          vram[x] == if ROW * dst <= x < ROW * dst + j then line[x - ROW * dst] else b[x]
      {
        vram[ROW * dst + j] := vram[ROW * src + j];
      }
      RowsUpdate(b, vram[..], dst, line);
    }

    /** `writeStatusBar` (src/console.c:119-126), with the column loop
        bounded by the end of the row. `s` is the content of the C string. */
    method WriteStatusBar(s: seq<byte>, loc: nat)
      requires Valid() && 0 !in s && loc < 256
      modifies vram
      ensures vram[..] == StatusWritten(old(vram[..]), s, loc)
    {
      if loc >= 80 {
        return;
      }
      ghost var b := vram[..];
      var k := 0;
      var l := loc;
      assert vram[..] == StatusPartial(b, s, loc, loc);
      while k < |s| && l < 80
        invariant l == loc + k <= 80 && k <= |s|
        invariant vram[..] == StatusPartial(b, s, loc, l)
      {
        StatusStep(b, s, loc, l);
        vram[STATUS + l * 2] := s[k];
        k, l := k + 1, l + 1;
      }
    }

    /** `updateMemUse` (src/console.c:129-155) for `m` bytes of heap in use:
        the 24-character field lands on columns 56-79 of the status row. */
    method UpdateMemUse(m: nat)
      requires Valid() && m < U64
      modifies vram
      ensures var t := ToBytes(StatusBar.MemUseText(m));
        |t| == 24 && vram[..] == StatusWritten(old(vram[..]), t, 56)
    {
      StatusBar.MemUseLayout(m);
      var t := ToBytes(StatusBar.MemUseText(m));
      // Every character of the field is a space, a digit or a letter.
      assert 0 !in t by {
        MemUseTextPrintable(m);
      }
      WriteStatusBar(t, 80 - |t|);
    }

    /** `clearScreen` (src/console.c:183-193): every window cell becomes the
        blank word 0x0700, the status row is kept and `cur` returns to the
        origin. */
    method ClearScreen()
      requires Valid()
      modifies this, vram
      ensures Valid() && cur == 0
      ensures forall j :: 0 <= j < STATUS ==> vram[j] == Blank(j)
      ensures vram[STATUS..] == old(vram[STATUS..])
      ensures vram == old(vram) && up == old(up) && down == old(down) && onTerm == old(onTerm)
      ensures cursorShown == old(cursorShown)
    {
      BlankWindow();
      cur := 0;
    }

    /** The loop of `clearScreen`: 64-bit stores of 0x0700070007000700. */
    method BlankWindow()
      requires vram.Length == VRAM_SIZE
      modifies vram
      ensures forall j :: 0 <= j < STATUS ==> vram[j] == Blank(j)
      ensures vram[STATUS..] == old(vram[STATUS..])
    {
      for v := 0 to STATUS / 8
        invariant forall j :: 0 <= j < 8 * v ==> vram[j] == Blank(j)
        invariant vram[STATUS..] == old(vram[STATUS..])
      {
        for b := 0 to 8
          invariant forall j :: 0 <= j < 8 * v + b ==> vram[j] == Blank(j)
          invariant vram[STATUS..] == old(vram[STATUS..])
        {
          BlankWord(v, b);
          vram[8 * v + b] := Blank(b);
        }
      }
    }

    /** `scrollUpBy` (src/console.c:398-435): the window moves up by `n`
        lines, or to the top of the document, as `ScrollUpView` says; the
        cursor is hidden unless there is nothing to scroll. */
    method ScrollUpBy(n: nat)
      requires Valid() && 1 <= n < U64
      modifies this, vram
      ensures Valid() && Shown() == ScrollUpView(old(Shown()), n)
      ensures vram == old(vram) && vram[STATUS..] == old(vram[STATUS..])
      ensures cur == old(cur) && onTerm == old(onTerm)
      ensures cursorShown == if old(up).None? || |old(up).value| % U32 == 0 then old(cursorShown) else false
    {
      if up.None? {
        return;
      }
      var l := |up.value| % U32;
      if l == 0 {
        return;
      }
      cursorShown := false;
      ghost var v := Shown();
      if down.None? {
        down := Some([]);
      }
      ghost var u, scr, dn := up.value, Screen(), down.value;
      var k := if n < l then n else l;
      ScrollUpResult(v, n, k);
      MoveBelow(n, l, k, u, scr, dn);
      var r := ShiftRowsDown(k, scr);
      assert k <= LINES ==> u[k - 1 - r..] == u;
      FillFromAbove(r, k, u, scr);
    }

    /** The first two loops of `scrollUpBy`: `k` lines onto the scroll-down
        stack, rows of the window bottom first, then beyond a window's worth
        straight from the scroll-up stack. */
    method MoveBelow(n: nat, l: nat, k: nat, ghost u: seq<Line>, ghost scr: seq<Line>, ghost dn: seq<Line>)
      requires Valid() && up == Some(u) && down == Some(dn) && Screen() == scr
      requires l <= |u| && k == if n < l then n else l
      modifies this
      ensures Valid() && vram == old(vram) && cur == old(cur) && onTerm == old(onTerm) && cursorShown == old(cursorShown)
      ensures up == Some(if k <= LINES then u else u[k - LINES..]) && down == Some(UpBelow(u, scr, dn, k))
    {
      var above := up.value;
      var below, i := BottomRowsOnto(n, l, down.value, u, scr);
      if i < k {
        above, below := Transfer(above, below, k - i);
        ReverseNoneThen(u, scr + dn);
      }
      up, down := Some(above), Some(below);
    }

    /** The first loop of `scrollUpBy`: window rows, bottom first, onto
        the scroll-down stack `dn`, at most `n`, `l` and 24 of them. */
    method BottomRowsOnto(n: nat, l: nat, dn: seq<Line>, ghost u: seq<Line>, ghost scr: seq<Line>)
      returns (below: seq<Line>, i: nat)
      requires Valid() && Screen() == scr && l <= |u|
      ensures i <= n && i <= l && i <= LINES && (i == n || i == l || i == LINES)
      ensures below == UpBelow(u, scr, dn, i)
    {
      below := dn;
      UpBelowNone(u, scr, dn);
      i := 0;
      while i < n && i < l && i < LINES
        invariant i <= n && i <= l && i <= LINES
        invariant below == UpBelow(u, scr, dn, i)
      {
        var line := ReadRow(LINES - 1 - i);
        UpBelowStep(u, scr, dn, i);
        below := [line] + below;
        i := i + 1;
      }
    }

    /** The first loop of `scrollDownBy`: window rows, top first, onto the
        scroll-up stack `u`, at most `n`, `l` and 24 of them. */
    method TopRowsOnto(n: nat, l: nat, u: seq<Line>, ghost scr: seq<Line>, ghost dn: seq<Line>)
      returns (above: seq<Line>, i: nat)
      requires Valid() && Screen() == scr && l <= |dn|
      ensures i <= n && i <= l && i <= LINES && (i == n || i == l || i == LINES)
      ensures above == DownAbove(u, scr, dn, i)
    {
      above := u;
      DownAboveNone(u, scr, dn);
      i := 0;
      while i < n && i < l && i < LINES
        invariant i <= n && i <= l && i <= LINES
        invariant above == DownAbove(u, scr, dn, i)
      {
        var line := ReadRow(i);
        DownAboveStep(u, scr, dn, i);
        above := [line] + above;
        i := i + 1;
      }
    }

    /** The second loop of `scrollUpBy` and of `scrollDownBy`: `count`
        lines popped one by one from `src` and pushed onto `dst`. */
    static method Transfer<T>(src: seq<T>, dst: seq<T>, count: nat) returns (src': seq<T>, dst': seq<T>)
      requires count <= |src|
      ensures src' == src[count..] && dst' == Reverse(src[..count]) + dst
    {
      src', dst' := src, dst;
      var j := 0;
      while j < count
        invariant j <= count && src' == src[j..] && dst' == Reverse(src[..j]) + dst
      {
        var line := src'[0];
        src' := src'[1..];
        ReversePush(src, j);
        ConsAssoc(line, Reverse(src[..j]), dst);
        dst' := [line] + dst';
        j := j + 1;
      }
    }

    /** The third loop of `scrollUpBy`: rows `k` on take the rows `k` above
        them, bottom first. Returns the last row left to fill. */
    method ShiftRowsDown(k: nat, ghost scr: seq<Line>) returns (r: nat)
      requires Valid() && k >= 1 && Screen() == scr
      modifies vram
      ensures r == if k <= LINES then k - 1 else LINES - 1
      ensures forall x :: r < x < LINES ==> Screen()[x] == scr[x - k]
      ensures vram[STATUS..] == old(vram[STATUS..])
    {
      ghost var rows := scr;
      r := LINES - 1;
      while r >= k
        invariant r <= LINES - 1 && (r + 1 >= k || r == LINES - 1)
        invariant vram[STATUS..] == old(vram[STATUS..])
        invariant Screen() == rows && |rows| == LINES
        invariant forall x :: r < x < LINES ==> rows[x] == scr[x - k]
        invariant forall x :: 0 <= x <= r ==> rows[x] == scr[x]
      {
        CopyRow(r, r - k);
        rows := rows[r := rows[r - k]];
        r := r - 1;
      }
    }

    /** The last loop of `scrollUpBy`: rows `r` down to 0 come off the
        scroll-up stack, so that its nearest line lands at the bottom. */
    method FillFromAbove(r: nat, k: nat, ghost u: seq<Line>, ghost scr: seq<Line>)
      requires Valid() && |scr| == LINES && r < LINES && r < k <= |u|
      requires r + 1 == if k <= LINES then k else LINES
      requires up == Some(u[k - 1 - r..])
      requires forall x :: r < x < LINES ==> Screen()[x] == scr[x - k]
      modifies this, vram
      ensures Valid() && up == Some(u[k..]) && Screen() == UpScreen(u, scr, k)
      ensures down == old(down) && vram == old(vram) && vram[STATUS..] == old(vram[STATUS..])
      ensures cur == old(cur) && onTerm == old(onTerm) && cursorShown == old(cursorShown)
    {
      var above := up.value;
      ghost var want := UpScreen(u, scr, k);
      ghost var rows := Screen();
      var i: nat := r + 1;
      while i > 0
        modifies vram
        invariant i <= r + 1 && above == u[k - i..]
        invariant vram[STATUS..] == old(vram[STATUS..])
        invariant Screen() == rows && |rows| == LINES
        invariant forall x :: i <= x < LINES ==> rows[x] == want[x]
      {
        i := i - 1;
        var line := above[0];
        PopFront(u, k - 1 - i);
        above := above[1..];
        WriteRow(i, line);
        rows := rows[i := line];
      }
      SameLines(rows, want);
      up := Some(above);
    }

    /** `scrollToBottom` (src/console.c:285-287): `scrollDownBy` with the
        largest count, which empties the scroll-down stack and keeps the
        document. */
    method ScrollToBottom()
      requires Valid()
      modifies this, vram
      ensures Valid() && Shown() == ScrollDownView(old(Shown()), U64 - 1)
      ensures vram == old(vram) && vram[STATUS..] == old(vram[STATUS..])
      ensures cur == old(cur) && onTerm == old(onTerm)
    {
      ScrollDownBy(U64 - 1);
    }

    /** `scrollDownBy` (src/console.c:437-473): the window moves down by `n`
        lines, or to the bottom of the document, as `ScrollDownView` says;
        on the terminal the cursor comes back once the scroll-down stack is
        empty. */
    method ScrollDownBy(n: nat)
      requires Valid() && 1 <= n < U64
      modifies this, vram
      ensures Valid() && Shown() == ScrollDownView(old(Shown()), n)
      ensures vram == old(vram) && vram[STATUS..] == old(vram[STATUS..])
      ensures cur == old(cur) && onTerm == old(onTerm)
      ensures cursorShown == if old(down).None? || |old(down).value| % U32 == 0 then old(cursorShown)
        else old(cursorShown) || (onTerm && |down.value| % U32 == 0)
    {
      if down.None? {
        return;
      }
      var l := |down.value| % U32;
      if l == 0 {
        return;
      }
      ghost var u, scr, dn := up.value, Screen(), down.value;
      var k := if n < l then n else l;
      ScrollDownResult(Shown(), n, k);
      MoveAbove(n, l, k, u, scr, dn);
      var r := ShiftRowsUp(k, scr);
      assert k <= LINES ==> dn[k - LINES + r..] == dn;
      FillFromBelow(r, k, scr, dn);
      if onTerm && |down.value| % U32 == 0 {
        cursorShown := true;
      }
    }

    /** The first two loops of `scrollDownBy`: `k` lines onto the scroll-up
        stack, rows of the window top first, then beyond a window's worth
        straight from the scroll-down stack. */
    method MoveAbove(n: nat, l: nat, k: nat, ghost u: seq<Line>, ghost scr: seq<Line>, ghost dn: seq<Line>)
      requires Valid() && up == Some(u) && down == Some(dn) && Screen() == scr
      requires l <= |dn| && k == if n < l then n else l
      modifies this
      ensures Valid() && vram == old(vram) && cur == old(cur) && onTerm == old(onTerm) && cursorShown == old(cursorShown)
      ensures up == Some(DownAbove(u, scr, dn, k)) && down == Some(if k <= LINES then dn else dn[k - LINES..])
    {
      var below := down.value;
      var above, i := TopRowsOnto(n, l, up.value, scr, dn);
      if i < k {
        below, above := Transfer(below, above, k - i);
        ReverseNoneThen(dn, Reverse(scr) + u);
      }
      up, down := Some(above), Some(below);
    }

    /** The third loop of `scrollDownBy`: rows above `24 - k` take the rows
        `k` below them, top first. Returns the first row left to fill. */
    method ShiftRowsUp(k: nat, ghost scr: seq<Line>) returns (r: nat)
      requires Valid() && k >= 1 && Screen() == scr
      modifies vram
      ensures r == if k <= LINES then LINES - k else 0
      ensures forall x :: 0 <= x < r ==> Screen()[x] == scr[x + k]
      ensures vram[STATUS..] == old(vram[STATUS..])
    {
      ghost var rows := scr;
      r := 0;
      while r < LINES - k
        invariant r <= LINES && (r + k <= LINES || r == 0)
        invariant vram[STATUS..] == old(vram[STATUS..])
        invariant Screen() == rows && |rows| == LINES
        invariant forall x :: 0 <= x < r ==> rows[x] == scr[x + k]
        invariant forall x :: r <= x < LINES ==> rows[x] == scr[x]
      {
        CopyRow(r, r + k);
        rows := rows[r := rows[r + k]];
        r := r + 1;
      }
    }

    /** The last loop of `scrollDownBy`: rows `r` to 23 come off the
        scroll-down stack. */
    method FillFromBelow(r: nat, k: nat, ghost scr: seq<Line>, ghost dn: seq<Line>)
      requires Valid() && |scr| == LINES && 1 <= k <= |dn| && r <= LINES
      requires r == if k <= LINES then LINES - k else 0
      requires down == Some(dn[k - LINES + r..])
      requires forall x :: 0 <= x < r ==> Screen()[x] == scr[x + k]
      modifies this, vram
      ensures Valid() && down == Some(dn[k..]) && Screen() == DownScreen(scr, dn, k)
      ensures up == old(up) && vram == old(vram) && vram[STATUS..] == old(vram[STATUS..])
      ensures cur == old(cur) && onTerm == old(onTerm) && cursorShown == old(cursorShown)
    {
      var below := down.value;
      ghost var want := DownScreen(scr, dn, k);
      ghost var rows := Screen();
      var i: nat := r;
      while i < LINES
        modifies vram
        invariant r <= i <= LINES && below == dn[k - LINES + i..]
        invariant vram[STATUS..] == old(vram[STATUS..])
        invariant Screen() == rows && |rows| == LINES
        invariant forall x :: 0 <= x < i ==> rows[x] == want[x]
      {
        var line := below[0];
        below := below[1..];
        WriteRow(i, line);
        rows := rows[i := line];
        i := i + 1;
      }
      SameLines(rows, want);
      down := Some(below);
    }
  }

  /** The heap-usage field holds no NUL. */
  lemma MemUseTextPrintable(m: nat)
    requires m < U64
    ensures 0 !in ToBytes(StatusBar.MemUseText(m))
  {
    var (v, unit) := StatusBar.MemUnit(m);
    var full := "Heap used: " + StatusBar.Decimal(v) + " " + unit;
    FullTextPrintable(v, unit);
    StatusBar.MemUseLayout(m);
    FitPrintable(full);
    PrintableHasNoNul(StatusBar.MemUseText(m));
  }

  /** Cutting or padding a printable text keeps it printable. */
  lemma FitPrintable(s: string)
    requires Printable(s)
    ensures Printable(StatusBar.FitField(s))
  {
    var t := StatusBar.FitField(s);
    if |s| > StatusBar.MAX_MEMLEN {
      assert t == s[..StatusBar.MAX_MEMLEN];
    } else {
      assert t == StatusBar.Spaces(StatusBar.MAX_MEMLEN - |s|) + s;
    }
  }

  lemma FullTextPrintable(v: nat, unit: string)
    requires v < U64 && (unit == "K" || unit == "bytes")
    ensures Printable("Heap used: " + StatusBar.Decimal(v) + " " + unit)
  {
    Strings.UnpaddedDecimal(v);
    assert Printable(StatusBar.Decimal(v));
  }

  /** Characters from the space to 'z'. */
  predicate Printable(s: string) {
    forall i :: 0 <= i < |s| ==> ' ' <= s[i] <= 'z'
  }

  lemma PrintableHasNoNul(s: string)
    requires Printable(s)
    ensures 0 !in ToBytes(s)
  {
    var t := ToBytes(s);
    forall i | 0 <= i < |t|
      ensures t[i] != 0
    {
      assert 32 <= s[i] as int <= 122;
    }
  }

  // ---------------------------------------------------------------------
  // Terminal pages

  /** `n` blank-glyph cells in `color`: glyph 0, then the attribute. */
  function Fill(color: byte, n: nat): (r: seq<byte>)
    ensures |r| == 2 * n
    ensures forall j :: 0 <= j < |r| ==> r[j] == if j % 2 == 0 then 0 else color
  {
    seq(2 * n, j requires 0 <= j < 2 * n => if j % 2 == 0 then 0 as byte else color)
  }

  /** The bytes `printCharColor` appends for `c` when the write position is
      at byte `col` of its row: one (glyph, colour) cell, or for a newline
      blank cells up to the end of the row. */
  function Cells(c: byte, color: byte, col: nat): (r: seq<byte>)
    requires col < ROW && col % 2 == 0
    ensures |r| % 2 == 0 && 2 <= |r| && col + |r| <= ROW
    ensures c != NEWLINE ==> |r| == 2 && r[0] == c && r[1] == color
    ensures c == NEWLINE ==> col + |r| == ROW && r == Fill(color, |r| / 2)
  {
    if c == NEWLINE then Fill(color, (ROW - col) / 2) else [c, color]
  }

  /** A terminal's text after printing `s` in `color` onto text `t`. */
  function Render(t: seq<byte>, s: seq<byte>, color: byte): (r: seq<byte>)
    requires |t| % 2 == 0
    ensures |r| % 2 == 0
    decreases |s|
  {
    if s == [] then t
    else Render(t + Cells(s[0], color, Column(|t|)), s[1..], color)
  }

  /** An even byte offset is at an even byte of its row. */
  lemma EvenColumn(x: nat)
    requires x % 2 == 0
    ensures (x % ROW) % 2 == 0
  {
    var q := x / ROW;
    assert x == ROW * q + x % ROW;
    assert ROW * q == 2 * (80 * q);
  }

  /** Printing only appends: the earlier text is kept, and each character
      adds at least one cell. */
  lemma {:induction false} RenderExtends(t: seq<byte>, s: seq<byte>, color: byte)
    requires |t| % 2 == 0
    ensures var r := Render(t, s, color); |r| >= |t| + 2 * |s| && r[..|t|] == t
    decreases |s|
  {
    if s != [] {
      var t' := t + Cells(s[0], color, Column(|t|));
      RenderExtends(t', s[1..], color);
      assert Render(t, s, color)[..|t|] == t'[..|t|];
    }
  }

  /** Printing `a` then `b` is printing `a + b`. */
  lemma {:induction false} RenderAppend(t: seq<byte>, a: seq<byte>, b: seq<byte>, color: byte)
    requires |t| % 2 == 0
    ensures Render(Render(t, a, color), b, color) == Render(t, a + b, color)
    decreases |a|
  {
    if a != [] {
      RenderAppend(t + Cells(a[0], color, Column(|t|)), a[1..], b, color);
      assert (a + b)[1..] == a[1..] + b;
    } else {
      assert a + b == b;
    }
  }

  /** After a newline the text ends on a row boundary, so the next
      character starts a row. */
  lemma NewlineEndsRow(t: seq<byte>, color: byte)
    requires |t| % 2 == 0
    ensures |Render(t, [NEWLINE], color)| % ROW == 0
  {
    var c := Cells(NEWLINE, color, Column(|t|));
    assert Render(t, [NEWLINE], color) == t + c;
    assert |t| % ROW + |c| == ROW;
  }

  /** Byte `b` of the blank word 0x0700070007000700, stored little-endian
      as word `w`, is the blank of its position. */
  lemma BlankWord(w: nat, b: nat)
    requires b < 8
    ensures Blank(8 * w + b) == Blank(b)
  {
    Arith.DivModUnique(8 * w + b, 2, 4 * w + b / 2, b % 2);
  }

  /** The page `newPage` hands back, as intended: every cell blank. */
  ghost predicate BlankPage(p: seq<byte>) {
    |p| == PAGE && forall j :: 0 <= j < PAGE ==> p[j] == Blank(j)
  }

  /** `newPage` as written: the loop stores the blank word 60 times
      through the same pointer, so only bytes 0-7 of the fresh allocation
      become blank and the rest keep whatever the allocator left there. */
  function NewPageAsWritten(garbage: seq<byte>): (p: seq<byte>)
    requires |garbage| == PAGE
    ensures |p| == PAGE
  {
    seq(PAGE, j requires 0 <= j < PAGE => if j < 8 then Blank(j) else garbage[j])
  }

  /** On memory that held 0xFF, the page `newPage` returns is not blank:
      byte 8 still holds 0xFF. */
  lemma NewPageAsWrittenNotBlank()
    ensures var p := NewPageAsWritten(seq(PAGE, j => 0xFF as byte));
      p[8] == 0xFF && p[8] != Blank(8) && !BlankPage(p)
  {
  }

  /** The text buffer of a terminal: a list of 3840-byte pages, written only
      at the write position `cur` in the last page. */
  class Terminal {
    var pages: seq<array<byte>>
    var cur: nat

    ghost function Repr(): set<array<byte>>
      reads this
    {
      set i | 0 <= i < |pages| :: pages[i]
    }

    ghost function Last(): array<byte>
      reads this
      requires |pages| > 0
    {
      pages[|pages| - 1]
    }

    /** Distinct pages of 3840 bytes; the write position is a cell boundary
        no further than the end of the last page, and the last page is
        blank from there on. */
    ghost predicate Shape()
      reads this, Repr()
    {
      |pages| >= 1 &&
      (forall i :: 0 <= i < |pages| ==> pages[i].Length == PAGE) &&
      (forall i, j :: 0 <= i < j < |pages| ==> pages[i] != pages[j]) &&
      cur <= PAGE && cur % 2 == 0 &&
      forall j :: cur <= j < PAGE ==> Last()[j] == Blank(j)
    }

    /** Between calls the write position is inside the last page. */
    ghost predicate Valid()
      reads this, Repr()
    {
      Shape() && cur < PAGE
    }

    /** Everything printed: the earlier pages in order, then the last page
        up to the write position. */
    ghost function Text(): (r: seq<byte>)
      reads this, Repr()
      requires Shape()
      ensures |r| == (|pages| - 1) * PAGE + cur
    {
      FlatLength(pages[..|pages| - 1]);
      Flat(pages[..|pages| - 1]) + Last()[..cur]
    }

    /** A terminal with one fresh blank page. */
    constructor ()
      ensures Valid() && Text() == [] && fresh(Repr())
    {
      var p := NewPage();
      pages := [p];
      cur := 0;
      new;
      assert pages[..0] == [];
    }

    /** `printcc` (src/console.c:221-224): one cell at the write position. */
    method Put(c: byte, cl: byte)
      requires Shape() && cur + 2 <= PAGE
      modifies this, Last()
      ensures Shape() && pages == old(pages) && cur == old(cur) + 2
      ensures Text() == old(Text()) + [c, cl]
    {
      var page := pages[|pages| - 1];
      ghost var ps := pages[..|pages| - 1];
      ghost var front := Flat(ps);
      ghost var before := page[..cur];
      assert page !in set i | 0 <= i < |ps| :: ps[i];
      page[cur] := c;
      page[cur + 1] := cl;
      cur := cur + 2;
      assert Flat(ps) == front;
      assert page[..cur] == before + [c, cl];
    }

    /** The cells of one character at the write position: the branch of
        `printCharColor` (src/console.c:226-237) before the page check. */
    method PutCells(c: byte, color: byte)
      requires Valid()
      modifies this, Last()
      ensures Shape() && pages == old(pages)
      ensures Text() == old(Text()) + Cells(c, color, Column(old(cur)))
    {
      ghost var t := Text();
      ghost var col := Column(cur);
      RowRoom(cur);
      if c == NEWLINE {
        PutBlanks(ROW - cur % ROW, color);
      } else {
        Put(c, color);
      }
    }

    /** The newline loop of `printCharColor`: blank cells over the next
        `n` bytes, counting `n` down by two. */
    method PutBlanks(n: nat, color: byte)
      requires Shape() && n % 2 == 0 && cur + n <= PAGE
      modifies this, Last()
      ensures Shape() && pages == old(pages) && cur == old(cur) + n
      ensures Text() == old(Text()) + Fill(color, n / 2)
    {
      ghost var t := Text();
      var m: nat := n;
      while m > 0
        invariant Shape() && pages == old(pages) && m <= n && m % 2 == 0
        invariant cur + m == old(cur) + n
        invariant Text() == t + Fill(color, (n - m) / 2)
      {
        Put(0, color);
        FillStep(t, color, (n - m) / 2);
        m := m - 2;
      }
    }

    /** `printCharColor` (src/console.c:226-237) on the terminal: the cells
        of `c` are appended to the text; a full page makes a fresh blank
        page the write target and leaves the earlier pages as they were. */
    method PrintCharColor(c: byte, color: byte)
      requires Valid()
      modifies this, Last()
      ensures Valid() && Text() == old(Text()) + Cells(c, color, Column(old(cur)))
      ensures |old(pages)| <= |pages| <= |old(pages)| + 1 && pages[..|old(pages)|] == old(pages)
      ensures forall i :: |old(pages)| <= i < |pages| ==> fresh(pages[i])
    {
      PutCells(c, color);
      if cur == PAGE {
        NextPage();
      }
    }

    /** The page check of `printCharColor`: a fresh blank page is appended
        to the list and becomes the write target; the text is unchanged. */
    method NextPage()
      requires Shape() && cur == PAGE
      modifies this
      ensures Valid() && cur == 0 && Text() == old(Text())
      ensures |pages| == |old(pages)| + 1 && pages[..|old(pages)|] == old(pages) && fresh(Last())
    {
      ghost var ps := pages;
      ghost var text := Text();
      assert Flat(ps) == Flat(ps[..|ps| - 1]) + ps[|ps| - 1][..];
      assert ps[|ps| - 1][..PAGE] == ps[|ps| - 1][..];
      assert text == Flat(ps);
      var p := NewPage();
      pages := pages + [p];
      cur := 0;
      assert pages[..|pages| - 1] == ps;
      assert Text() == Flat(ps) + p[..0];
    }

    /** `printColor` (src/console.c:239-249): every character of the C
        string `s` (its content, without the NUL) in turn. */
    method PrintColor(s: seq<byte>, color: byte)
      requires Valid() && 0 !in s
      modifies this, Last()
      ensures Valid() && |old(Text())| % 2 == 0
      ensures Text() == Render(old(Text()), s, color)
      ensures Last() == old(Last()) || fresh(Last())
    {
      TextAligned();
      ghost var t0 := Text();
      assert s[..0] == [];
      for i := 0 to |s|
        invariant Valid() && Text() == Render(t0, s[..i], color)
        invariant Last() == old(Last()) || fresh(Last())
      {
        PrintStep(t0, s[..i], s[i], color);
        TakeOneMore(s, i);
      }
      assert s[..|s|] == s;
    }

    /** One loop step of `printColor`: one more character rendered. */
    method PrintStep(ghost t0: seq<byte>, ghost done: seq<byte>, c: byte, color: byte)
      requires Valid() && |t0| % 2 == 0 && Text() == Render(t0, done, color)
      modifies this, Last()
      ensures Valid() && Text() == Render(t0, done + [c], color)
      ensures Last() == old(Last()) || fresh(Last())
    {
      ghost var t := Text();
      TextAligned();
      PrintCharColor(c, color);
      RenderOne(t, c, color);
      RenderAppend(t0, done, [c], color);
    }

    /** `print` (src/console.c:251-253): `printColor` in light grey. */
    method Print(s: seq<byte>)
      requires Valid() && 0 !in s
      modifies this, Last()
      ensures Valid() && |old(Text())| % 2 == 0
      ensures Text() == Render(old(Text()), s, 0x07)
      ensures Last() == old(Last()) || fresh(Last())
    {
      PrintColor(s, 0x07);
    }

    /** `printc` (src/console.c:255-264): one character in light grey. */
    method Printc(c: byte)
      requires Valid()
      modifies this, Last()
      ensures Valid() && Text() == old(Text()) + Cells(c, 0x07, Column(old(cur)))
      ensures |old(pages)| <= |pages| <= |old(pages)| + 1 && pages[..|old(pages)|] == old(pages)
      ensures forall i :: |old(pages)| <= i < |pages| ==> fresh(pages[i])
    {
      PrintCharColor(c, 0x07);
    }

    /** `|Text()|` and the write position agree on the column. */
    lemma TextAligned()
      requires Valid()
      ensures |Text()| % 2 == 0 && |Text()| % ROW == cur % ROW
    {
      var n := |pages| - 1;
      assert n * PAGE == (n * LINES) * ROW;
      Arith.DivModUnique(|Text()|, ROW, n * LINES + cur / ROW, cur % ROW);
      Arith.DivModUnique(|Text()|, 2, n * (PAGE / 2) + cur / 2, 0);
    }
  }

  lemma FillStep(t: seq<byte>, color: byte, k: nat)
    ensures (t + Fill(color, k)) + [0, color] == t + Fill(color, k + 1)
  {
    assert Fill(color, k) + [0, color] == Fill(color, k + 1);
  }

  /** The byte of its row an even byte offset falls on. */
  function Column(at: nat): (c: nat)
    requires at % 2 == 0
    ensures c < ROW && c % 2 == 0 && c == at % ROW
  {
    EvenColumn(at);
    at % ROW
  }

  /** A row that the write position is in ends within the page. */
  lemma RowRoom(at: nat)
    requires at < PAGE
    ensures at - at % ROW + ROW <= PAGE
  {
    Arith.DivModUnique(at, ROW, at / ROW, at % ROW);
    assert at / ROW < LINES;
  }

  /** Rendering one character appends its cells. */
  lemma RenderOne(t: seq<byte>, c: byte, color: byte)
    requires |t| % 2 == 0
    ensures Render(t, [c], color) == t + Cells(c, color, Column(|t|))
  {
    assert Render(t, [c], color) == Render(t + Cells(c, color, Column(|t|)), [], color);
  }

  /** The bytes of a list of pages, in order. */
  ghost function Flat(ps: seq<array<byte>>): seq<byte>
    reads set i | 0 <= i < |ps| :: ps[i]
  {
    if ps == [] then [] else Flat(ps[..|ps| - 1]) + ps[|ps| - 1][..]
  }

  lemma {:induction false} FlatLength(ps: seq<array<byte>>)
    requires forall i :: 0 <= i < |ps| ==> ps[i].Length == PAGE
    ensures |Flat(ps)| == |ps| * PAGE
  {
    if ps != [] {
      FlatLength(ps[..|ps| - 1]);
    }
  }

  /** `newPage` (src/console.c:88-95) as intended: a fresh page, every cell
      the blank word 0x0700. */
  method NewPage() returns (p: array<byte>)
    ensures fresh(p) && BlankPage(p[..])
  {
    p := new byte[PAGE];
    for w := 0 to PAGE / 8
      invariant forall j :: 0 <= j < 8 * w ==> p[j] == Blank(j)
    {
      for b := 0 to 8
        invariant forall j :: 0 <= j < 8 * w + b ==> p[j] == Blank(j)
      {
        BlankWord(w, b);
        p[8 * w + b] := Blank(b);
      }
    }
  }

  // ---------------------------------------------------------------------
  // gotInput

  /** The byte `printc(i.key)` receives for a typed key: the character's
      code, or for a navigation key its code from the driver's key table,
      which is a parameter here. */
  function KeyByte(k: Key, navCode: Key -> byte): (b: byte)
    ensures k.Char? ==> b as int == k.c as int % 256
    ensures !k.Char? ==> b == navCode(k)
  {
    if k.Char? then (k.c as int % 256) as byte else navCode(k)
  }

  /** `gotInput` (src/console.c:475-514) acting on the display `d` and the
      terminal `t` it shows: scroll keys scroll, a plain key on the terminal
      scrolls to the bottom and is printed, ctrl-L on the terminal clears
      the window, and any other event changes nothing. */
  method GotInput(e: Input, d: Display, t: Terminal, navCode: Key -> byte)
    requires d.Valid() && t.Valid() && d.vram !in t.Repr()
    modifies d, d.vram, t, t.Last()
    ensures d.Valid() && t.Valid() && d.vram == old(d.vram) && d.onTerm == old(d.onTerm)
    ensures d.vram[STATUS..] == old(d.vram[STATUS..])
    ensures Dispatch(e, old(d.onTerm)).ScrollUp? ==>
      d.Shown() == ScrollUpView(old(d.Shown()), Dispatch(e, old(d.onTerm)).n) && t.Text() == old(t.Text())
    ensures Dispatch(e, old(d.onTerm)).ScrollDown? ==>
      d.Shown() == ScrollDownView(old(d.Shown()), Dispatch(e, old(d.onTerm)).n) && t.Text() == old(t.Text())
    ensures Dispatch(e, old(d.onTerm)).Type? ==>
      d.Shown() == ScrollDownView(old(d.Shown()), U64 - 1) &&
      t.Text() == old(t.Text()) + Cells(KeyByte(e.key, navCode), 0x07, Column(old(t.cur)))
    ensures Dispatch(e, old(d.onTerm)) == Clear ==>
      d.cur == 0 && (forall j :: 0 <= j < STATUS ==> d.vram[j] == Blank(j)) &&
      d.up == old(d.up) && d.down == old(d.down) && t.Text() == old(t.Text())
    ensures Dispatch(e, old(d.onTerm)) in {ShowTerminal, ShowLogs, Ignore} ==>
      d.Shown() == old(d.Shown()) && d.cur == old(d.cur) && t.Text() == old(t.Text())
  {
    ghost var text := t.Text();
    match Dispatch(e, d.onTerm)
    case ScrollUp(n) =>
      d.ScrollUpBy(n);
      assert t.Valid() && t.Text() == text;
    case ScrollDown(n) =>
      d.ScrollDownBy(n);
      assert t.Valid() && t.Text() == text;
    case Type(k) =>
      TypeKey(d, t, KeyByte(k, navCode));
    case Clear =>
      d.ClearScreen();
      assert t.Valid() && t.Text() == text;
    case _ =>
  }

  /** The typing branch of `gotInput`: `scrollToBottom()`, then
      `printc(i.key)` on the terminal. */
  method TypeKey(d: Display, t: Terminal, b: byte)
    requires d.Valid() && t.Valid() && d.vram !in t.Repr()
    modifies d, d.vram, t, t.Last()
    ensures d.Valid() && t.Valid() && d.vram == old(d.vram) && d.onTerm == old(d.onTerm)
    ensures d.vram[STATUS..] == old(d.vram[STATUS..])
    ensures d.Shown() == ScrollDownView(old(d.Shown()), U64 - 1)
    ensures t.Text() == old(t.Text()) + Cells(b, 0x07, Column(old(t.cur)))
  {
    ghost var text := t.Text();
    d.ScrollToBottom();
    assert t.Valid() && t.Text() == text;
    ghost var shown := d.Shown();
    ghost var status := d.vram[STATUS..];
    t.Printc(b);
    assert d.Shown() == shown && d.vram[STATUS..] == status;
  }
}
