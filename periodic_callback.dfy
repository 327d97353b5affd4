/** The periodic callback table of src/periodic_callback.c: a growable array
    of callback records with a length and a capacity, appended to by
    registration and shifted down by unregistration.

    `PeriodicCallbacks` is the table as its authors evidently meant it; the
    functions at the end model registration and unregistration as written,
    with lemmas exhibiting where the two differ. */
module PeriodicCallback {
  import opened Machine

  const INIT_CAP: nat := 10
  /** `sizeof(void*)`: the table holds pointers of 8 bytes. */
  const SLOT_BYTES: nat := 8

  /** `struct periodic_callback`: a countdown, its period, and the function. */
  datatype Callback = Callback(count: nat, period: nat, f: nat)

  /** The intended unregistration: the first entry equal to `c` is dropped,
      the others keep their order; without a match nothing changes. */
  function RemoveEntry(l: seq<Callback>, c: Callback): (r: seq<Callback>)
    ensures c !in l ==> r == l
    ensures c in l ==> |r| == |l| - 1
  {
    if l == [] then []
    else if l[0] == c then l[1..]
    else [l[0]] + RemoveEntry(l[1..], c)
  }

  /** Dropping the first match at `m` is `RemoveEntry`. */
  lemma {:induction false} RemoveEntryAt(l: seq<Callback>, c: Callback, m: nat)
    requires m < |l| && l[m] == c && c !in l[..m]
    ensures RemoveEntry(l, c) == l[..m] + l[m + 1..]
    decreases m
  {
    if m > 0 {
      var t := l[1..];
      assert l[..m][0] == l[0] && l[0] != c;
      assert t[..m - 1] == l[..m][1..];
      assert c !in t[..m - 1] by {
        forall x | x in l[..m][1..] ensures x in l[..m] {
        }
      }
      RemoveEntryAt(t, c, m - 1);
      assert RemoveEntry(l, c) == [l[0]] + (t[..m - 1] + t[m..]);
      assert [l[0]] + t[..m - 1] == l[..m] && t[m..] == l[m + 1..];
    }
  }

  /** Registering `c` and then unregistering it restores the table when
      `c` was not registered before. */
  lemma {:induction false} RegisterThenUnregister(l: seq<Callback>, c: Callback)
    requires c !in l
    ensures RemoveEntry(l + [c], c) == l
  {
    RemoveEntryAt(l + [c], c, |l|);
    assert (l + [c])[..|l|] == l;
  }

  /** Unregistering keeps every other registration, in order: the result
      is the table with its first entry equal to `c` cut out, and as a
      multiset it loses exactly one `c`. */
  lemma RemoveEntryKeepsOthers(l: seq<Callback>, c: Callback)
    ensures c in l ==>
      exists m :: 0 <= m < |l| && l[m] == c && c !in l[..m] && RemoveEntry(l, c) == l[..m] + l[m + 1..]
    ensures multiset(RemoveEntry(l, c)) == multiset(l) - multiset{c}
  {
    if c in l {
      var m := FirstMatch(l, c, |l|);
      assert l[..|l|] == l;
      RemoveEntryAt(l, c, m);
    }
    RemoveEntryCount(l, c);
  }

  /** As a multiset, unregistering removes one `c` at most. */
  lemma {:induction false} RemoveEntryCount(l: seq<Callback>, c: Callback)
    ensures multiset(RemoveEntry(l, c)) == multiset(l) - multiset{c}
    decreases |l|
  {
    if l != [] {
      assert l == [l[0]] + l[1..];
      RemoveEntryCount(l[1..], c);
    }
  }

  /** `realloc` of the table to `n` entries. */
  method Grow(a: array<Callback>, n: nat) returns (b: array<Callback>)
    requires a.Length <= n
    ensures fresh(b) && b.Length == n && b[..a.Length] == a[..]
  {
    b := new Callback[n];
    for j := 0 to a.Length
      invariant b[..j] == a[..j]
    {
      b[j] := a[j];
    }
  }

  /** `periodicCallbacks` with the file's static `cap`. */
  class PeriodicCallbacks {
    /** `periodicCallbacks.pcs`, meaningful once `hasPcs` (the pointer is non-null). */
    var pcs: array<Callback>
    var hasPcs: bool
    var len: nat
    var cap: nat

    ghost predicate Valid()
      reads this
    {
      if hasPcs then INIT_CAP <= cap == pcs.Length && len < cap
      else len == 0 && cap == 0
    }

    /** The registered callbacks, in registration order. */
    function Entries(): seq<Callback>
      reads this, pcs
      requires Valid()
    {
      if hasPcs then pcs[..len] else []
    }

    /** The initial `{0, 0}`: nothing hasPcs, nothing registered. */
    constructor ()
      ensures Valid() && !hasPcs && Entries() == [] && fresh(pcs)
    {
      pcs := new Callback[0];
      hasPcs, len, cap := false, 0, 0;
    }

    /** `registerPeriodicCallback` (src/periodic_callback.c:13-31): the first
        registration allocates room for 10; the room doubles when an append
        would leave no free slot; a copy of `c` is appended. */
    method Register(c: Callback)
      requires Valid()
      modifies this, pcs
      ensures Valid() && hasPcs && (pcs == old(pcs) || fresh(pcs))
      ensures Entries() == old(Entries()) + [c]
      ensures old(!hasPcs) ==> cap == INIT_CAP
      ensures old(hasPcs) ==> cap == if old(len) + 1 >= old(cap) then 2 * old(cap) else old(cap)
    {
      ghost var before := Entries();
      if !hasPcs {
        cap := INIT_CAP;
        pcs := new Callback[INIT_CAP];
        hasPcs := true;
      } else if len + 1 >= cap {
        cap := cap * 2;
        pcs := Grow(pcs, cap);
        assert pcs[..len] == pcs[..old(pcs.Length)][..len];
      }
      assert pcs[..len] == before;
      pcs[len] := c;
      len := len + 1;
      assert pcs[..len] == before + [c];
    }

    /** `unregisterPeriodicCallback` (src/periodic_callback.c:33-65) as
        intended: nothing before the first registration; otherwise the first
        entry matching `c` in count, period and function is removed and the
        later ones shift down one place. */
    method Unregister(c: Callback)
      requires Valid()
      modifies this, pcs
      ensures Valid() && hasPcs == old(hasPcs) && cap == old(cap) && pcs == old(pcs)
      ensures Entries() == RemoveEntry(old(Entries()), c)
    {
      if !hasPcs {
        return;
      }
      var drop := ShiftOut(pcs, len, c);
      if drop {
        len := len - 1;
      }
    }
  }

  /** The shifting loop of `unregisterPeriodicCallback` over the first `n`
      slots of `a`: from the first entry equal to `c` on, each slot takes
      the next one's entry. Returns whether the last slot is to be dropped,
      that is whether `c` was found. */
  method ShiftOut(a: array<Callback>, n: nat, c: Callback) returns (drop: bool)
    requires n <= a.Length
    modifies a
    ensures drop ==> n > 0
    ensures a[..if drop then n - 1 else n] == RemoveEntry(old(a[..n]), c)
  {
    ghost var l := a[..n];
    ghost var m: int := -1;
    var found := false;
    var i := 0;
    while i + 1 < n
      invariant i <= n && (n > 0 ==> i < n)
      invariant found <==> m >= 0
      invariant Shifted(a[..n], l, c, i, m)
    {
      ghost var s := a[..n];
      ghost var m0 := m;
      if found || a[i] == c {
        if !found {
          m := i;
        }
        found := true;
        a[i] := a[i + 1];
      }
      ShiftStep(s, l, c, i, m0);
      i := i + 1;
    }
    ShiftDone(a[..n], l, c, i, m);
    drop := found || (n > 0 && a[n - 1] == c);
  }

  /** The state of the unregistration loop after looking at `l[..i]`: before
      a match the table is untouched; after the first match at `m` the
      entries from `m + 1` on have moved down one place, up to index `i`. */
  ghost predicate Shifted(a: seq<Callback>, l: seq<Callback>, c: Callback, i: nat, m: int) {
    |a| == |l| && i <= |l| &&
    (m < 0 ==> a == l && c !in l[..i]) &&
    (m >= 0 ==> m < i < |l| && l[m] == c && c !in l[..m] &&
                a[..i] == l[..m] + l[m + 1..i + 1] && a[i..] == l[i..])
  }

  /** One pass of the loop body keeps `Shifted`. */
  lemma ShiftStep(a: seq<Callback>, l: seq<Callback>, c: Callback, i: nat, m: int)
    requires Shifted(a, l, c, i, m) && i + 1 < |l|
    ensures var shift := m >= 0 || a[i] == c;
      Shifted(if shift then a[i := a[i + 1]] else a, l, c, i + 1, if m < 0 && a[i] == c then i else m)
  {
    if m >= 0 {
      assert l[..m] + l[m + 1..i + 2] == l[..m] + l[m + 1..i + 1] + [l[i + 1]];
    } else if a[i] == c {
      assert l[..i + 1] == l[..i] + [c];
    } else {
      assert l[..i + 1] == l[..i] + [l[i]];
    }
  }

  /** When the loop ends, dropping the last slot when something matched
      (before or at the last entry) leaves `RemoveEntry`. */
  lemma ShiftDone(a: seq<Callback>, l: seq<Callback>, c: Callback, i: nat, m: int)
    requires Shifted(a, l, c, i, m) && (|l| > 0 ==> i == |l| - 1) && (|l| == 0 ==> i == 0)
    ensures m >= 0 ==> a[..|l| - 1] == RemoveEntry(l, c)
    ensures m < 0 && |l| > 0 && a[|l| - 1] == c ==> a[..|l| - 1] == RemoveEntry(l, c)
    ensures m < 0 && !(|l| > 0 && a[|l| - 1] == c) ==> a == RemoveEntry(l, c)
  {
    if m >= 0 {
      RemoveEntryAt(l, c, m);
    } else if |l| > 0 && a[|l| - 1] == c {
      RemoveEntryAt(l, c, |l| - 1);
    } else if |l| > 0 {
      assert l == l[..|l| - 1] + [l[|l| - 1]];
    }
  }

  // ---------------------------------------------------------------------
  // The code as written

  /** The table as written: `slots` pointers fit in the current block (none
      before the first registration), `len` and the static `cap`. */
  datatype Table = Table(hasPcs: bool, slots: nat, len: nat, cap: nat)

  /** `registerPeriodicCallback` as written (src/periodic_callback.c:16-28):
      the growth path reallocates to `cap * 2` BYTES and never updates `cap`.
      Also returns whether the store at index `len` lands inside the block. */
  function RegisterAsWritten(t: Table): (r: (Table, bool))
    ensures r.0.hasPcs && r.0.len == t.len + 1
    ensures r.1 <==> t.len < r.0.slots
  {
    var grown :=
      if !t.hasPcs then Table(true, INIT_CAP * SLOT_BYTES / SLOT_BYTES, t.len, INIT_CAP)
      else if t.len + 1 >= t.cap then t.(slots := t.cap * 2 / SLOT_BYTES)
      else t;
    (grown.(len := t.len + 1), t.len < grown.slots)
  }

  /** `n` registrations as written, starting from the empty table; the second
      component says whether every store stayed in bounds. */
  function RegisterTimes(n: nat): (Table, bool) {
    if n == 0 then (Table(false, 0, 0, 0), true)
    else
      var prev := RegisterTimes(n - 1);
      var step := RegisterAsWritten(prev.0);
      (step.0, prev.1 && step.1)
  }

  /** The tenth registration shrinks the block to two pointer slots and then
      stores at index 9, past its end. */
  lemma TenthRegistrationOverflows()
    ensures RegisterTimes(9) == (Table(true, 10, 9, 10), true)
    ensures RegisterTimes(10).0.slots == 2 && !RegisterTimes(10).1
  {
    assert RegisterTimes(1) == (Table(true, 10, 1, 10), true);
    assert RegisterTimes(2) == (Table(true, 10, 2, 10), true);
    assert RegisterTimes(3) == (Table(true, 10, 3, 10), true);
    assert RegisterTimes(4) == (Table(true, 10, 4, 10), true);
    assert RegisterTimes(5) == (Table(true, 10, 5, 10), true);
    assert RegisterTimes(6) == (Table(true, 10, 6, 10), true);
    assert RegisterTimes(7) == (Table(true, 10, 7, 10), true);
    assert RegisterTimes(8) == (Table(true, 10, 8, 10), true);
  }

  /** The corrected registration never stores out of bounds: ten
      registrations leave a table of capacity 20 holding all ten. */
  method TenRegistrations() returns (t: PeriodicCallbacks)
    ensures t.Valid() && t.Entries() == seq(10, j requires 0 <= j => Callback(j, 1, 0)) && t.cap == 20
  {
    t := new PeriodicCallbacks();
    var j := 0;
    while j < 10
      invariant 0 <= j <= 10 && t.Valid()
      invariant fresh(t) && fresh(t.pcs)
      invariant t.Entries() == seq(j, k requires 0 <= k => Callback(k, 1, 0))
      invariant t.hasPcs ==> t.len == j
      invariant j == 0 ==> !t.hasPcs
      invariant 1 <= j <= 9 ==> t.hasPcs && t.cap == 10
      invariant j == 10 ==> t.cap == 20
      decreases 10 - j
    {
      t.Register(Callback(j, 1, 0));
      j := j + 1;
    }
  }

  /** The first index below `n` whose entry matches `c`, or `n`. */
  function FirstMatch(l: seq<Callback>, c: Callback, n: nat): (m: nat)
    requires n <= |l|
    ensures m <= n && c !in l[..m] && (m < n ==> l[m] == c)
  {
    if n == 0 then 0
    else
      var m := FirstMatch(l, c, n - 1);
      if m < n - 1 then m else if l[n - 1] == c then n - 1 else n
  }

  /** `unregisterPeriodicCallback` as written, once the table is allocated
      (src/periodic_callback.c:38-49). Returns the first `len` entries
      afterwards, the new `len` and whether every entry the loop reads lies
      inside the table.
      - The loop runs while `i < len - 1`, computed in 64 bits, so an empty
        table gives the bound 2^64 - 1 and the loop reads `pcs[0]` onwards.
      - Once it has seen a match at `m` it starts shifting at `m + 1`, so
        the entry AFTER the match is overwritten.
      - `len` drops by one whether or not anything matched, and wraps to
        2^64 - 1 from zero. */
  function UnregisterAsWritten(l: seq<Callback>, c: Callback): (r: (seq<Callback>, nat, bool))
    requires |l| < U64
    ensures r.1 == if |l| == 0 then U64 - 1 else |l| - 1
    ensures r.2 <==> |l| >= 1
    ensures |l| >= 1 ==> |r.0| == r.1
  {
    var bound := (|l| + U64 - 1) % U64;
    // Iteration `i` reads `pcs[i]`, and `pcs[i + 1]` after a match.
    var inBounds := bound == 0 || bound < |l|;
    var entries :=
      if |l| == 0 then []
      else
        var m := FirstMatch(l, c, |l| - 1);
        if m + 1 < |l| then l[..m + 1] + l[m + 2..] else l[..|l| - 1];
    (entries, bound, inBounds)
  }

  /** Unregistering the first of two callbacks removes the second instead. */
  lemma UnregisterRemovesTheNeighbour(a: Callback, b: Callback)
    requires a != b
    ensures UnregisterAsWritten([a, b], a).0 == [a]
    ensures RemoveEntry([a, b], a) == [b]
  {
    assert FirstMatch([a, b], a, 1) == 0;
  }

  /** Unregistering a callback that was never registered still drops the
      last entry. */
  lemma UnregisterWithoutMatch(a: Callback, c: Callback)
    requires a != c
    ensures UnregisterAsWritten([a], c).0 == []
    ensures RemoveEntry([a], c) == [a]
  {
  }

  /** On an allocated but empty table, the code as written reads entries
      that are not there and leaves `len` at 2^64 - 1; the intended removal
      leaves the empty table alone. */
  lemma EmptyUnregisterWraps(c: Callback)
    ensures UnregisterAsWritten([], c) == ([], U64 - 1, false)
    ensures RemoveEntry([], c) == []
  {
  }
}
