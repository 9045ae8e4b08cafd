/** Small shared vocabulary: optional values, results, the platform word size and sequence
    reversal. */
module Common {

  /** An optional value, as Rust's `Option`. */
  datatype Option<+T> = None | Some(value: T)

  /** A success value or a handed-back value, as Rust's `Result`. */
  datatype Result<+T, +E> = Ok(value: T) | Err(error: E)

  /** The largest `usize` on a 64-bit target. */
  const USIZE_MAX: nat := 0xFFFF_FFFF_FFFF_FFFF

  /** `c.checked_mul(2).unwrap_or(c)`: the doubled capacity, or `c` itself when doubling
      overflows a `usize`. */
  function Grow(c: nat): (g: nat)
    ensures c <= g
    ensures 2 * c <= USIZE_MAX ==> g == 2 * c
    ensures 2 * c > USIZE_MAX ==> g == c
    ensures c <= USIZE_MAX ==> g <= USIZE_MAX
  {
    if 2 * c <= USIZE_MAX then 2 * c else c
  }

  /** The larger of two numbers, as `std::cmp::max`. */
  function Max(a: nat, b: nat): (m: nat)
    ensures m >= a && m >= b
    ensures m == a || m == b
  {
    if a >= b then a else b
  }

  /** A strictly positive natural number (alignments are never zero). */
  type pos = n: nat | n >= 1 witness 1

  /** `xs` read back to front. */
  function Reverse<T>(xs: seq<T>): (r: seq<T>)
    ensures |r| == |xs|
  {
    if xs == [] then [] else Reverse(xs[1..]) + [xs[0]]
  }

  /** Appending at the back shows up at the front of the reversal. */
  lemma {:induction false} ReverseSnoc<T>(xs: seq<T>, x: T)
    ensures Reverse(xs + [x]) == [x] + Reverse(xs)
  {
    if xs != [] {
      assert (xs + [x])[1..] == xs[1..] + [x];
      ReverseSnoc(xs[1..], x);
    }
  }

  /** Concatenation is associative. */
  lemma AppendAssoc<T>(a: seq<T>, b: seq<T>, c: seq<T>)
    ensures (a + b) + c == a + (b + c)
  {
  }
}
