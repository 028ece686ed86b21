/** Facts about products of naturals that the byte-offset proofs rely on. */
module Arith {

  lemma MulLe(a: nat, b: nat, c: nat)
    requires a <= b
    ensures a * c <= b * c
  {
    assert b * c == a * c + (b - a) * c;
  }

  /** Row y of `rows` rows of `stride` bytes ends inside the rows. */
  lemma RowFits(y: nat, rows: nat, stride: nat)
    requires y < rows
    ensures y * stride + stride <= rows * stride
  {
    MulLe(y + 1, rows, stride);
    assert (y + 1) * stride == y * stride + stride;
  }

  /** k whole frames of n bytes make a buffer that divides into exactly k frames. */
  lemma DivExact(k: nat, n: nat)
    requires n > 0
    ensures (k * n) / n == k && (k * n) % n == 0
  {
    var q, r := (k * n) / n, (k * n) % n;
    assert k * n == q * n + r && 0 <= r < n;
    assert (q + 1) * n == q * n + n && (k + 1) * n == k * n + n;
    if q < k {
      MulLe(q + 1, k, n);
      assert false;
    } else if q > k {
      MulLe(k + 1, q, n);
      assert false;
    }
  }

  /** The whole n-byte frames of a len-byte buffer lie inside it. */
  lemma DivBound(len: nat, n: nat)
    requires n > 0
    ensures (len / n) * n <= len
  {
  }

  /** Frame i of the first len / n frames of n bytes lies inside the buffer. */
  lemma DivFits(len: nat, n: nat, i: nat)
    requires n > 0 && i < len / n
    ensures i * n + n <= len
  {
    RowFits(i, len / n, n);
    DivBound(len, n);
  }
}
