/** Go's fixed-width integers and byte slices, with wrap-around written out. */
module Machine {
  const TWO_31 := 0x8000_0000
  const TWO_32 := 0x1_0000_0000
  const TWO_63 := 0x8000_0000_0000_0000
  const TWO_64 := 0x1_0000_0000_0000_0000
  const MAX_INT64 := TWO_63 - 1

  newtype byte = b: int | 0 <= b < 256
  type uint64 = x: int | 0 <= x < TWO_64
  type int64 = x: int | -TWO_63 <= x < TWO_63

  /** The contents of a Go slice or string: its length is an `int`. */
  type Buffer = s: seq<byte> | |s| <= MAX_INT64 witness []

  /** `int(x)`: the same 64 bits read as a two's complement number. */
  function ToInt64(x: uint64): int64 {
    if x < TWO_63 then x else x - TWO_64
  }

  /** `int32(x)`: the low 32 bits read as a two's complement number. */
  function ToInt32(x: uint64): int {
    var low := x % TWO_32;
    if low < TWO_31 then low else low - TWO_32
  }

  /** `a + b` on `int`: the true sum, brought back into range by wrap-around. */
  function Add64(a: int64, b: int64): int64 {
    if a + b >= TWO_63 then a + b - TWO_64
    else if a + b < -TWO_63 then a + b + TWO_64
    else a + b
  }

  function Pow2(n: nat): (p: nat)
    ensures p >= 1
  {
    if n == 0 then 1 else 2 * Pow2(n - 1)
  }

  /** `x << n` on `uint64`: bits above the 64th are dropped. */
  function Shl64(x: uint64, n: nat): uint64 {
    x * Pow2(n) % TWO_64
  }

  /** `acc | y`, where `acc` uses only the low `n` bits and `y`, a multiple of 2^n, none of them. */
  function OrDisjoint(acc: uint64, y: uint64, ghost n: nat, ghost multiple: nat): (r: int)
    requires acc < Pow2(n) && y == multiple * Pow2(n)
  {
    acc + y
  }

  /** `math/bits.Len64`: the number of bits needed to write `x`; 0 for 0. */
  function BitLen(x: nat): nat {
    if x == 0 then 0 else 1 + BitLen(x / 2)
  }

  /** `x | 1`. */
  function OrOne(x: nat): nat {
    if x % 2 == 0 then x + 1 else x
  }

  /** 128^k, the weight of the group at position `k`. */
  function Pow128(k: nat): (p: nat)
    ensures p >= 1
  {
    if k == 0 then 1 else 128 * Pow128(k - 1)
  }

  lemma {:induction false} Pow2IsPow128(k: nat)
    ensures Pow2(7 * k) == Pow128(k)
  {
    if k > 0 {
      var n := 7 * k - 7;
      Pow2IsPow128(k - 1);
      assert Pow2(n + 7) == 2 * Pow2(n + 6) == 4 * Pow2(n + 5) == 8 * Pow2(n + 4);
      assert Pow2(n + 4) == 2 * Pow2(n + 3) == 4 * Pow2(n + 2) == 8 * Pow2(n + 1);
    }
  }

  lemma {:induction false} Pow128Monotonic(m: nat, n: nat)
    requires m <= n
    ensures Pow128(m) <= Pow128(n)
    decreases n - m
  {
    if m < n {
      Pow128Monotonic(m, n - 1);
    }
  }

  lemma Pow128Of9()
    ensures Pow128(9) == TWO_63
  {
  }

  /** The conversions and the sum keep the low bits and land in range, which leaves one result. */
  lemma WrapIsExact(x: uint64, a: int64, b: int64, r: int)
    ensures r == ToInt64(x) <==> -TWO_63 <= r < TWO_63 && (x - r) % TWO_64 == 0
    ensures r == ToInt32(x) <==> -TWO_31 <= r < TWO_31 && (x - r) % TWO_32 == 0
    ensures r == Add64(a, b) <==> -TWO_63 <= r < TWO_63 && (a + b - r) % TWO_64 == 0
  {
  }
}
