/** Facts about division by a variable. */
module Division {

  lemma Multiple(q: nat, block: nat)
    requires block > 0
    ensures q * block % block == 0 && (q + 1) * block == q * block + block
  {
    if q > 0 {
      Multiple(q - 1, block);
      assert q * block == (q - 1) * block + block;
      ModPlus((q - 1) * block, block);
    }
  }

  lemma ModPlus(n: nat, block: nat)
    requires block > 0
    ensures (n + block) % block == n % block && (n + block) / block == n / block + 1
  {
    var q, r := n / block, n % block;
    assert n + block == (q + 1) * block + r;
    QuotientUnique(n + block, q + 1, r, block);
  }

  lemma QuotientUnique(n: nat, q: nat, r: nat, block: nat)
    requires 0 <= r < block && n == q * block + r
    ensures n % block == r && n / block == q
  {
    var q', r' := n / block, n % block;
    Distribute(q, q', block);
    assert (q - q') * block == r' - r;
    if q > q' {
      AtLeastOnce(q - q', block);
    } else if q < q' {
      AtLeastOnce(q' - q, block);
      Distribute(q', q, block);
    }
  }

  lemma Distribute(a: int, b: int, c: int)
    ensures (a - b) * c == a * c - b * c
  {
  }

  lemma AtLeastOnce(k: int, c: int)
    requires k >= 1 && c > 0
    ensures k * c >= c
  {
  }

  lemma Associate(a: int, b: int, c: int)
    ensures a * b * c == a * (b * c)
  {
  }

  lemma ModFour(n: nat, q: nat, r: nat)
    requires n == 4 * q + r
    ensures n % 4 == r % 4
  {
  }
}
