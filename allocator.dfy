/** Types and rounding arithmetic shared by both allocators: the error kinds of
    the `allocator` crate, the size and alignment of a request (`Layout`), and
    the power-of-two masks with which addresses are rounded up and down. */
module Allocator {

  /** The error kinds an allocator reports. */
  datatype AllocError = InvalidParam | MemoryOverlap | NoMemory | NotAllocated

  /** `AllocResult<T>`: a value (an address, usually) or an error. */
  datatype AllocResult<T> = Ok(value: T) | Err(error: AllocError)

  /** The size and alignment of a byte request, as `core::alloc::Layout` carries them. */
  datatype Layout = Layout(size: nat, align: nat)

  /** `a` is 1, 2, 4, 8, ... */
  predicate IsPow2(a: nat)
    ensures IsPow2(a) ==> a > 0
    decreases a
  {
    a == 1 || (a >= 2 && a % 2 == 0 && IsPow2(a / 2))
  }

  /** `x` is a multiple of `a`. */
  predicate Aligned(x: nat, a: nat)
  {
    a > 0 && x % a == 0
  }

  /** Twice a multiple of `b` is a multiple of `2 * b`. */
  lemma DoubleAligned(h: nat, b: nat)
    requires Aligned(h, b)
    ensures Aligned(2 * h, 2 * b)
  {
    var q := h / b;
    assert h == b * q;
    assert 2 * h == (2 * b) * q;
    MultipleAligned(2 * b, q);
  }

  lemma MultipleAligned(k: nat, q: nat)
    requires k > 0
    ensures Aligned(k * q, k)
  {
    var d, r := (k * q) / k, (k * q) % k;
    assert k * q == k * d + r;
    assert k * (q - d) == r;
    if q - d >= 1 {
      assert false;
    } else if q - d <= -1 {
      assert false;
    }
  }

  /** Multiplying by a positive factor keeps the sign of the other factor. */
  lemma MulSign(a: nat, m: int)
    requires a > 0
    ensures m >= 1 ==> a * m >= a
    ensures m <= 0 ==> a * m <= 0
  {
  }

  /** Distinct multiples of `a` are at least `a` apart. */
  lemma MultiplesApart(a: nat, b: nat, c: nat)
    requires Aligned(b, a) && Aligned(c, a) && b < c
    ensures b + a <= c
  {
    var qb, qc := b / a, c / a;
    assert b == a * qb && c == a * qc;
    assert a * (qc - qb) == c - b;
    MulSign(a, qc - qb);
  }

  /** A smaller power of two divides a larger one. */
  lemma Pow2Divides(a: nat, b: nat)
    requires IsPow2(a) && IsPow2(b) && a <= b
    ensures Aligned(b, a)
    decreases a
  {
    if a > 1 {
      Pow2Divides(a / 2, b / 2);
      DoubleAligned(b / 2, a / 2);
    }
  }

  /** What is aligned to a larger power of two is aligned to a smaller one. */
  lemma AlignedToSmallerPow2(x: nat, a: nat, b: nat)
    requires IsPow2(a) && IsPow2(b) && a <= b && Aligned(x, b)
    ensures Aligned(x, a)
  {
    Pow2Divides(a, b);
    var q1, q2 := x / b, b / a;
    AlignedIsMultiple(x, b);
    AlignedIsMultiple(b, a);
    MulAssoc(a, q2, q1);
    assert x == a * (q2 * q1);
    MultipleAligned(a, q2 * q1);
  }

  /** A multiple of `a` is `a` times its quotient. */
  lemma AlignedIsMultiple(x: nat, a: nat)
    requires Aligned(x, a)
    ensures x == a * (x / a)
  {
  }

  lemma MulAssoc(a: nat, b: nat, c: nat)
    ensures (a * b) * c == a * (b * c)
  {
  }

  /** `x & !(a - 1)` for a power of two `a`: the low log2(a) bits of `x`
      cleared, one bit for each halving of `a`. The result is the largest
      multiple of `a` that is at most `x`. */
  function AlignDown(x: nat, a: nat): (r: nat)
    requires IsPow2(a)
    ensures Aligned(r, a) && r <= x < r + a
    ensures forall b: nat :: Aligned(b, a) && b <= x ==> b <= r
    decreases a
  {
    if a == 1 then x
    else
      var h := AlignDown(x / 2, a / 2);
      DoubleAligned(h, a / 2);
      var r := 2 * h;
      assert forall b: nat :: Aligned(b, a) && b <= x ==> b <= r by {
        forall b: nat | Aligned(b, a) && b <= x && r < b {
          MultiplesApart(a, r, b);
        }
      }
      r
  }

  /** `(x + a - 1) & !(a - 1)` for a power of two `a`: the smallest multiple
      of `a` that is at least `x`. */
  function AlignUp(x: nat, a: nat): (r: nat)
    requires IsPow2(a)
    ensures Aligned(r, a) && x <= r < x + a
    ensures forall b: nat :: Aligned(b, a) && x <= b ==> r <= b
  {
    var r := AlignDown(x + a - 1, a);
    assert forall b: nat :: Aligned(b, a) && x <= b ==> r <= b by {
      forall b: nat | Aligned(b, a) && x <= b && b < r {
        MultiplesApart(a, b, r);
      }
    }
    r
  }
}
