/** Packet numbers: 16-bit counters that run modulo 65535 (tools.c). */
module SeqNums {

  const SEQMAX := 65535      // seq_max_NUM: the number of sequence numbers, 0 to 65534

  /** uint16Add for a modulus `m`. */
  function Add(m: nat, a: nat, b: nat): (r: nat)
    requires 0 < m
    ensures r < m
  {
    (a + b) % m
  }

  /** uint16Sub for a modulus `m`: how far `newd` is ahead of `oldd`, or -1 if more than half way round. The older one
      may come from a packet and be any 16-bit number, so also 65535, which is no number the program assigns. */
  function Sub(m: nat, newd: nat, oldd: nat): int
    requires newd < m && oldd <= m
  {
    var ret := if newd < oldd then newd + 1 + (m - 1) - oldd else newd - oldd;
    if ret > m / 2 then -1 else ret
  }

  lemma SmallMod(m: nat, a: nat)
    requires 0 < m && a < 2 * m
    ensures a % m == if a < m then a else a - m
  {
  }

  /** uint16Sub is the inverse of uint16Add on every step of at most half the modulus. */
  lemma SubIsDistance(m: nat, newd: nat, oldd: nat, d: nat)
    requires newd < m && oldd < m
    ensures Sub(m, newd, oldd) == d <==> d <= m / 2 && newd == Add(m, oldd, d)
  {
    if d <= m / 2 {
      SmallMod(m, oldd + d);
    }
  }

  /** Counting on past a multiple of the modulus. */
  lemma NextMod(m: nat, n: nat)
    requires 0 < m
    ensures (n + 1) % m == Add(m, n % m, 1)
    ensures (n + 1) % m == if n % m + 1 == m then 0 else n % m + 1
  {
    var q, r := n / m, n % m;
    assert n == m * q + r;
    if r + 1 == m {
      assert n + 1 == m * (q + 1);
      MultipleMod(m, q + 1, 0);
    } else {
      assert n + 1 == m * q + (r + 1);
      MultipleMod(m, q, r + 1);
    }
    SmallMod(m, r + 1);
  }

  lemma MultipleMod(m: nat, q: nat, r: nat)
    requires r < m
    ensures (m * q + r) % m == r
  {
    var n := m * q + r;
    var k := n / m;
    assert n == m * k + n % m;
    assert m * (q - k) == n % m - r;
    assert q - k >= 1 ==> m * (q - k) >= m;
    assert q - k <= -1 ==> m * (q - k) + m <= 0;
  }

  /** Going back `d` steps from the n-th number gives the (n - d)-th. */
  lemma BackMod(m: nat, n: nat, d: nat)
    requires 0 < m && d <= n && d < m
    ensures (n - d) % m == if d <= n % m then n % m - d else n % m + m - d
  {
    var q, r := n / m, n % m;
    assert n == m * q + r;
    if d <= r {
      assert n - d == m * q + (r - d);
      MultipleMod(m, q, r - d);
    } else {
      assert q > 0;
      assert m * q == m * (q - 1) + m;
      assert n - d == m * (q - 1) + (r + m - d);
      MultipleMod(m, q - 1, r + m - d);
    }
  }
}
