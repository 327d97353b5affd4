/** The userspace demo program of src/userspace/app.c: it steps a pair of
    64-bit statics `a`, `b` through the Fibonacci sequence until `b` reaches
    10^19, then counts `a` from 0 up to a fixed chunk, printing only when
    `a` is a multiple of the chunk. */
module App {
  import opened Machine

  const ONE_E_19: nat := 10_000_000_000_000_000_000
  /** `chunk` in `main`: 100000000 / 8. */
  const CHUNK: nat := 100_000_000 / 8

  /** The Fibonacci numbers with Fib(1) == Fib(2) == 1. */
  function Fib(k: nat): nat {
    if k == 0 then 0 else if k == 1 then 1 else Fib(k - 2) + Fib(k - 1)
  }

  /** The program's statics, updated in place. */
  class FibApp {
    var a: nat
    var b: nat

    constructor ()
      ensures a == 0 && b == 0
    {
      a, b := 0, 0;
    }

    /** `fibNext` (src/userspace/app.c:8-12): (a, b) := (b, a + b), the sum
        taken in 64-bit unsigned arithmetic. */
    method FibNext()
      requires a < U64 && b < U64
      modifies this
      ensures a == old(b) && b == (old(a) + old(b)) % U64
    {
      var c := a;
      a := b;
      b := (a + c) % U64;
    }

    /** The first loop of `main` (src/userspace/app.c:15-19): from (1, 1),
        step until `b` reaches 10^19. It ends on the first pair of consecutive
        Fibonacci numbers whose larger member reaches 10^19, and no sum on the
        way wraps around 2^64. */
    method FibUntilLarge()
      modifies this
      ensures exists k: nat :: a == Fib(k) && b == Fib(k + 1)
      ensures a < ONE_E_19 <= b < U64
    {
      a := 1;
      b := 1;
      ghost var k: nat := 1;
      while b < ONE_E_19
        invariant a == Fib(k) && b == Fib(k + 1)
        invariant 1 <= a <= b < U64
        invariant (a == 1 && b == 1) || (b <= 2 * a && 3 * a <= 2 * b)
        invariant b >= ONE_E_19 ==> a < ONE_E_19
        decreases ONE_E_19 - b
      {
        assert a + b < U64;
        assert Fib(k + 2) == a + b;
        FibNext();
        k := k + 1;
      }
    }

    /** The second loop of `main` (src/userspace/app.c:33-36): count `a` from
        0 to `chunk`, printing `a` whenever it is a multiple of `chunk`. It
        ends with `a == chunk` and prints exactly once, for `a == 0`. */
    method CountChunk() returns (printed: seq<nat>)
      modifies this
      ensures a == CHUNK
      ensures printed == [0]
    {
      printed := [];
      a := 0;
      while a < CHUNK
        invariant 0 <= a <= CHUNK
        invariant printed == if a == 0 then [] else [0]
      {
        if a % CHUNK == 0 {
          printed := printed + [a];
        }
        a := a + 1;
      }
    }

    /** `main` (src/userspace/app.c:14-36) without its messages: returns the
        pair the Fibonacci loop stopped at and the values the counting loop
        printed. */
    method Run() returns (fibA: nat, fibB: nat, printed: seq<nat>)
      modifies this
      ensures exists k: nat :: fibA == Fib(k) && fibB == Fib(k + 1)
      ensures fibA < ONE_E_19 <= fibB < U64
      ensures a == CHUNK && printed == [0]
    {
      FibUntilLarge();
      fibA, fibB := a, b;
      printed := CountChunk();
    }
  }
}
