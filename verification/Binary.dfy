/** Numbers in binary. */
module Binary {
  function Abs(x: int): nat {
    if x < 0 then -x else x
  }

  function Pow2(k: nat): (p: nat)
    ensures p >= 1
  {
    if k == 0 then 1 else 2 * Pow2(k - 1)
  }

  /** `BitLen` and `bits.Len64`: the number of binary digits. */
  function BitLen(n: nat): nat {
    if n == 0 then 0 else 1 + BitLen(n / 2)
  }

  lemma {:induction false} BitLenMono(a: nat, b: nat)
    requires a <= b
    ensures BitLen(a) <= BitLen(b)
  {
    if a > 0 { BitLenMono(a / 2, b / 2); }
  }

  /** A number of k binary digits lies between two powers of two. */
  lemma {:induction false} BitLenMeans(n: nat)
    requires n > 0
    ensures BitLen(n) >= 1 && Pow2(BitLen(n) - 1) <= n < Pow2(BitLen(n))
  {
    if n > 1 { BitLenMeans(n / 2); } else { assert BitLen(1) == 1 + BitLen(0); }
  }

  /** The length of a product is at most the sum of the lengths, here for a factor of 1024. */
  lemma {:induction false} TenBits(n: nat, q: nat)
    requires n < 1024 * q + 1024
    ensures BitLen(n) <= 10 + BitLen(q)
  {
    hide BitLen;
    Halve(n, 512 * q + 511);
    Halve(512 * q + 511, 256 * q + 255);
    Halve(256 * q + 255, 128 * q + 127);
    Halve(128 * q + 127, 64 * q + 63);
    Halve(64 * q + 63, 32 * q + 31);
    Halve(32 * q + 31, 16 * q + 15);
    Halve(16 * q + 15, 8 * q + 7);
    Halve(8 * q + 7, 4 * q + 3);
    Halve(4 * q + 3, 2 * q + 1);
    Halve(2 * q + 1, q);
  }

  lemma Halve(n: nat, h: nat)
    requires n <= 2 * h + 1
    ensures BitLen(n) <= 1 + BitLen(h)
  {
    BitLenMono(n / 2, h);
  }
}
