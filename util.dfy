/**
 * Small helpers shared by the finder model: byte strings, an Option type,
 * the `equal` and `append` helpers of the finder, and powers of two.
 *
 * C strings (resource names, paths) are modelled as byte sequences without
 * their terminating NUL; `strlen(s)` is `|s|`.
 */
module Util {

  /** uint8_t and uint32_t. */
  type uint8 = x: int | 0 <= x < 0x100
  type uint32 = x: int | 0 <= x < 0x1_0000_0000

  type Bytes = seq<uint8>

  datatype Option<+T> = None | Some(value: T)

  /** memcmp(a, b, n) == 0: the first n bytes of a and b agree. */
  function MemoryEqual(a: Bytes, b: Bytes, n: nat): (r: bool)
    requires n <= |a| && n <= |b|
    ensures r <==> a[..n] == b[..n]
  {
    if n == 0 then true
    else a[0] == b[0] && MemoryEqual(a[1..], b[1..], n - 1)
  }

  /** `equal(a, al, b, bl)`: equal lengths, then memcmp over that length. */
  function Equal(a: Bytes, b: Bytes): (r: bool)
    ensures r <==> a == b
  {
    if |a| == |b| then MemoryEqual(a, b, |a|) else false
  }

  /** `equal` holds exactly when the lengths agree and so does every byte. */
  lemma EqualIsBytewise(a: Bytes, b: Bytes)
    ensures Equal(a, b) <==> (|a| == |b| && forall i :: 0 <= i < |a| ==> a[i] == b[i])
  {
    if |a| == |b| && forall i :: 0 <= i < |a| ==> a[i] == b[i] {
      assert a == b;
    }
  }

  /** `append(s, a, b, c)`: a fresh string holding a, then b, then c. */
  function Append(a: Bytes, b: Bytes, c: Bytes): (r: Bytes)
    ensures |r| == |a| + |b| + |c|
    ensures r[..|a|] == a && r[|a|..|a| + |b|] == b && r[|a| + |b|..] == c
  {
    a + b + c
  }

  predicate IsPowerOfTwo(n: nat)
    decreases n
  {
    n == 1 || (n > 1 && n % 2 == 0 && IsPowerOfTwo(n / 2))
  }

  /** `a & b` on naturals, bit by bit from the least significant bit. */
  function BitAnd(a: nat, b: nat): (r: nat)
    ensures r <= a && r <= b
    decreases a
  {
    if a == 0 || b == 0 then 0
    else 2 * BitAnd(a / 2, b / 2) + (if a % 2 == 1 && b % 2 == 1 then 1 else 0)
  }

  /** The remainder is the only value below m that differs from h by a multiple of m. */
  lemma RemainderIsUnique(h: nat, m: nat, q: nat, r: nat)
    requires m > 0 && r < m && h == m * q + r
    ensures h % m == r
  {
    var d := q - h / m;
    assert m * d == h % m - r;
    if d > 0 {
      assert m * d == m * (d - 1) + m;
    } else if d < 0 {
      assert m * d == m * (d + 1) - m;
    }
  }

  /** Halving the dividend and the divisor: the remainder by 2k from the remainder by k. */
  lemma RemainderOfDouble(h: nat, k: nat)
    requires k > 0
    ensures h % (2 * k) == 2 * ((h / 2) % k) + h % 2
  {
    var q := (h / 2) / k;
    var r := (h / 2) % k;
    assert h / 2 == k * q + r;
    assert h == (2 * k) * q + (2 * r + h % 2);
    RemainderIsUnique(h, 2 * k, q, 2 * r + h % 2);
  }

  /** Masking with the odd number 2k - 1: the low bit of h and the mask k - 1 on the rest. */
  lemma OddMaskStep(h: nat, k: nat)
    requires h > 0 && k >= 1
    ensures BitAnd(h, 2 * k - 1) == 2 * BitAnd(h / 2, k - 1) + h % 2
  {
    assert (2 * k - 1) / 2 == k - 1 && (2 * k - 1) % 2 == 1;
  }

  /** For a power of two c, masking with c - 1 keeps the remainder by c. */
  lemma {:induction false} MaskIsRemainder(h: nat, c: nat)
    requires IsPowerOfTwo(c)
    ensures BitAnd(h, c - 1) == h % c
    decreases c
  {
    if c == 1 {
      assert BitAnd(h, 0) == 0;
    } else if h == 0 {
      assert BitAnd(0, c - 1) == 0;
    } else {
      var k := c / 2;
      assert c == 2 * k && IsPowerOfTwo(k);
      OddMaskStep(h, k);
      MaskIsRemainder(h / 2, k);
      RemainderOfDouble(h, k);
    }
  }

  lemma {:induction false} DoubleIsPowerOfTwo(n: nat)
    requires IsPowerOfTwo(n)
    ensures IsPowerOfTwo(2 * n)
  {
    assert (2 * n) / 2 == n;
  }
}
