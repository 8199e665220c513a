/** Integer widths, Go's truncated division, and the option type shared by every module. */
module Machine {

  datatype Option<+T> = None | Some(value: T)

  type Byte = x: int | 0 <= x < 0x100
  type Int16 = x: int | -0x8000 <= x < 0x8000
  type Uint32 = x: int | 0 <= x < 0x1_0000_0000

  const MAX_INT64: int := 0x7FFF_FFFF_FFFF_FFFF
  const MAX_UINT32: int := 0xFFFF_FFFF

  /** The most lists one probe count can select. */
  const MAX_PROBE: nat := 128

  /** The two's complement value of the low 32 bits of x: what VPMULLD leaves in a lane. */
  function Wrap32(x: int): int {
    var low := x % 0x1_0000_0000;
    if low < 0x8000_0000 then low else low - 0x1_0000_0000
  }

  /** The two's complement value of the low 64 bits of x: what 64-bit arithmetic leaves. */
  function Wrap64(x: int): int {
    (x + 0x8000_0000_0000_0000) % 0x1_0000_0000_0000_0000 - 0x8000_0000_0000_0000
  }

  predicate IsInt64(x: int) {
    -0x8000_0000_0000_0000 <= x <= MAX_INT64
  }

  /** Go's `/`: the quotient truncated toward zero. */
  function TruncDiv(a: int, b: int): int
    requires b != 0
  {
    if a >= 0 then a / b else -((-a) / b)
  }

  /** Go's `%`: the remainder has the sign of the dividend. */
  function TruncMod(a: int, b: int): int
    requires b != 0
  {
    a - TruncDiv(a, b) * b
  }

  /** A quotient is determined by its remainder's range. */
  lemma DivUnique(n: int, d: nat, q: int, r: int)
    requires d > 0 && n == d * q + r && 0 <= r < d
    ensures n / d == q
  {
    var e := n / d;
    assert d * e <= n < d * e + d;
    assert d * (q + 1) == d * q + d && d * (e + 1) == d * e + d;
    MulKeepsOrder(d, q + 1, e);
    MulKeepsOrder(d, e + 1, q);
  }

  lemma MulKeepsOrder(d: nat, x: int, y: int)
    ensures x <= y ==> d * x <= d * y
  {
    if x <= y {
      assert d * y == d * x + d * (y - x);
      assert d * (y - x) >= 0;
    }
  }

  lemma RemainderUnique(n: int, d: nat, q: int, r: int)
    requires d > 0 && n == d * q + r && 0 <= r < d
    ensures n % d == r
  {
    DivUnique(n, d, q, r);
    assert n == d * (n / d) + n % d;
  }

  lemma SmallRemainder(x: nat, n: nat)
    requires x <= n && n > 0
    ensures x % n == if x == n then 0 else x
  {
    RemainderUnique(x, n, if x == n then 1 else 0, if x == n then 0 else x);
  }

  /** The remainder of the next number is one more, or starts again. */
  lemma NextRemainder(k: nat, n: nat)
    requires n > 0
    ensures (k + 1) % n == if k % n + 1 == n then 0 else k % n + 1
    ensures (k % n + 1) % n == (k + 1) % n
  {
    var q, r := k / n, k % n;
    assert k == n * q + r;
    SmallRemainder(r + 1, n);
    NextOf(k, n, q, r);
  }

  lemma NextOf(k: nat, n: nat, q: nat, r: nat)
    requires n > 0 && k == n * q + r && r < n
    ensures (k + 1) % n == if r + 1 == n then 0 else r + 1
  {
    if r + 1 < n {
      RemainderUnique(k + 1, n, q, r + 1);
    } else {
      assert n * (q + 1) == n * q + n;
      RemainderUnique(k + 1, n, q + 1, 0);
    }
  }
}
