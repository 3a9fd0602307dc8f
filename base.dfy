/** Shared value types of the log exporter: optional values, results, bytes and u32. */
module Base {

  /** Rust's `Option`. */
  datatype Option<T> = None | Some(value: T)

  /** Rust's `Result`, used where the source panics or returns an error. */
  datatype Result<T, E> = Ok(value: T) | Err(error: E)

  /** One byte of a log file (`u8`). */
  type byte = x: int | 0 <= x < 0x100

  /** Number of values of a `u32`. */
  const U32_LIMIT: int := 0x1_0000_0000

  /** A Rust `u32`. */
  type u32 = x: int | 0 <= x < U32_LIMIT

  // Facts about Euclidean division used by the record and bin arithmetic.

  lemma {:induction false} MulAtLeast(a: int, m: int)
    requires a >= 1 && m >= 0
    ensures a * m >= m
    decreases a
  {
    if a > 1 {
      MulAtLeast(a - 1, m);
      assert a * m == (a - 1) * m + m;
    }
  }

  /** Quotient and remainder are unique. */
  lemma DivUnique(x: int, m: int, q: int, r: int)
    requires m > 0 && 0 <= r < m && x == q * m + r
    ensures x / m == q && x % m == r
  {
    var q', r' := x / m, x % m;
    assert x == q' * m + r';
    if q' > q {
      assert (q' - q) * m == r - r';
      MulAtLeast(q' - q, m);
    } else if q' < q {
      assert (q - q') * m == r' - r;
      MulAtLeast(q - q', m);
    }
  }

  lemma DivStep(x: int, m: int)
    requires 0 < m <= x
    ensures (x - m) / m + 1 == x / m
    ensures (x - m) % m == x % m
  {
    var q, r := (x - m) / m, (x - m) % m;
    assert x - m == q * m + r;
    assert x == (q + 1) * m + r;
    DivUnique(x, m, q + 1, r);
  }

  /** A non-negative multiple of `m` is 0 or `m` more than another one. */
  lemma AlignedStep(d: int, m: int)
    requires m > 0 && d >= 0
    ensures d % m == 0 <==> d == 0 || (d >= m && (d - m) % m == 0)
  {
    if d >= m {
      DivStep(d, m);
    } else if d > 0 {
      DivUnique(d, m, 0, d);
    }
  }

  // Bitwise AND on unsigned integers, used by the CAN identifier masks.

  /** `2^k`. */
  function Pow2(k: nat): (p: nat)
    ensures p >= 1
  {
    if k == 0 then 1 else 2 * Pow2(k - 1)
  }

  /** Rust's `&` on unsigned integers: the bits set in both operands, from the lowest bit up. */
  function BitAnd(a: nat, b: nat): nat
    decreases a
  {
    if a == 0 || b == 0 then 0
    else 2 * BitAnd(a / 2, b / 2) + (if a % 2 == 1 && b % 2 == 1 then 1 else 0)
  }

  /** The low bits of `a` modulo `2m` are bit 0 followed by the low bits of `a / 2` modulo `m`. */
  lemma ModDouble(a: nat, m: nat)
    requires m >= 1
    ensures a % (2 * m) == 2 * ((a / 2) % m) + a % 2
  {
    var q, r := (a / 2) / m, (a / 2) % m;
    assert a / 2 == q * m + r;
    assert a == (2 * m) * q + (2 * r + a % 2);
    DivUnique(a, 2 * m, q, 2 * r + a % 2);
  }

  /** AND with an odd mask `2m - 1` keeps bit 0 and ANDs the rest with `m - 1`. */
  lemma BitAndOdd(a: nat, m: nat)
    requires a > 0 && m >= 1
    ensures BitAnd(a, 2 * m - 1) == 2 * BitAnd(a / 2, m - 1) + a % 2
  {
    var b := 2 * m - 1;
    DivUnique(b, 2, m - 1, 1);
  }

  /** If AND with `m - 1` keeps `a / 2` modulo `m`, AND with `2m - 1` keeps `a` modulo `2m`. */
  lemma BitAndLowStep(a: nat, m: nat)
    requires a > 0 && m >= 1 && BitAnd(a / 2, m - 1) == (a / 2) % m
    ensures BitAnd(a, 2 * m - 1) == a % (2 * m)
  {
    BitAndOdd(a, m);
    ModDouble(a, m);
  }

  /** AND with `2^k - 1` keeps the low `k` bits: the value modulo `2^k`. */
  lemma {:induction false} BitAndLowMask(a: nat, k: nat)
    ensures BitAnd(a, Pow2(k) - 1) == a % Pow2(k)
    decreases k
  {
    var p := Pow2(k);
    if k == 0 {
      assert p == 1 && BitAnd(a, p - 1) == 0;
    } else if a == 0 {
      assert BitAnd(a, p - 1) == 0;
    } else {
      var m := Pow2(k - 1);
      assert p == 2 * m;
      BitAndLowMask(a / 2, k - 1);
      BitAndLowStep(a, m);
    }
  }

  /** For a value below `2^(k+1)`, AND with `2^k` is non-zero exactly from `2^k` on. */
  lemma {:induction false} BitAndHighBit(a: nat, k: nat)
    requires a < Pow2(k + 1)
    ensures BitAnd(a, Pow2(k)) != 0 <==> a >= Pow2(k)
    decreases k
  {
    if k > 0 && a > 0 {
      assert Pow2(k) % 2 == 0 && Pow2(k) / 2 == Pow2(k - 1);
      BitAndHighBit(a / 2, k - 1);
    }
  }

  /** The powers of two the CAN masks are built from. */
  lemma Pow2Values()
    ensures Pow2(11) == 0x800 && Pow2(29) == 0x2000_0000
    ensures Pow2(31) == 0x8000_0000 && Pow2(32) == 0x1_0000_0000
  {
    assert Pow2(4) == 0x10;
    assert Pow2(8) == 0x100;
    assert Pow2(11) == 0x800;
    assert Pow2(14) == 0x4000;
    assert Pow2(17) == 0x2_0000;
    assert Pow2(20) == 0x10_0000;
    assert Pow2(23) == 0x80_0000;
    assert Pow2(26) == 0x400_0000;
    assert Pow2(29) == 0x2000_0000;
  }
}
