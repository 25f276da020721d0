/** Session-token arithmetic (src/web.rs): `mint_session_token`, the HI/LO split, the decimal cookie. */
module Token {
  import opened Bytes
  import opened Decimal

  const M64: nat := 0x1_0000_0000_0000_0000
  const M32: nat := 0x1_0000_0000
  const MUL: nat := 6364136223846793005
  const ADD: nat := 1442695040888963407

  type u64 = n: nat | n < 0x1_0000_0000_0000_0000
  type u32 = n: nat | n < 0x1_0000_0000

  function WrappingAdd(a: u64, b: u64): u64 { (a + b) % M64 }

  /** `seed.wrapping_mul(MUL).wrapping_add(ADD)` */
  function Mint(seed: u64): u64 { WrappingAdd(seed * MUL % M64, ADD) }

  /** Inverse of MUL modulo 2^64, and the multiple of 2^64 in their product. */
  const INV: nat := 13877824140714322085
  const WRAPS: nat := 4787856489426250814

  lemma Inverse()
    ensures MUL * INV == 1 + WRAPS * M64
  {
  }

  /** The seed that mints a given token. */
  function Unmint(token: u64): u64 { (token + (M64 - ADD)) % M64 * INV % M64 }

  lemma ModIs(v: int, x: u64, z: int)
    requires v == x + z * M64
    ensures v % M64 == x
  {
  }

  /** Multiplying x*mul, reduced by a multiple of m, with the inverse gives x up to a multiple of m. */
  lemma Cancel(x: int, mul: int, inv: int, k: int, m: int, q: int)
    requires mul * inv == 1 + k * m
    ensures (x * mul - q * m) * inv == x + (x * k - q * inv) * m
  {
    calc {
      (x * mul - q * m) * inv;
      x * mul * inv - q * m * inv;
      { assert x * mul * inv == x * (mul * inv); }
      x * (1 + k * m) - q * m * inv;
      x + x * k * m - q * inv * m;
      x + (x * k - q * inv) * m;
    }
  }

  /** x*mul reduced modulo 2^64 and multiplied by the inverse is x again. */
  lemma CancelMod(x: u64, mul: nat, inv: nat)
    requires mul * inv == 1 + WRAPS * M64
    ensures (x * mul % M64) * inv % M64 == x
  {
    var q := x * mul / M64;
    Cancel(x, mul, inv, WRAPS, M64, q);
    ModIs((x * mul % M64) * inv, x, x * WRAPS - q * inv);
  }

  lemma UnmintMint(seed: u64)
    ensures Unmint(Mint(seed)) == seed
  {
    Inverse();
    CancelMod(seed, MUL, INV);
    var r := seed * MUL % M64;
    assert (Mint(seed) + (M64 - ADD)) % M64 == r;
  }

  lemma MintUnmint(token: u64)
    ensures Mint(Unmint(token)) == token
  {
    Inverse();
    var d := (token + (M64 - ADD)) % M64;
    CancelMod(d, INV, MUL);
    assert (d + ADD) % M64 == token;
  }

  /** Minting is a bijection on 64-bit words: distinct seeds give distinct tokens and every token has its
      seed, the reserved token 0 among them. */
  lemma MintIsBijection(a: u64, b: u64, token: u64)
    ensures Mint(a) == Mint(b) <==> a == b
    ensures Mint(a) == token <==> a == Unmint(token)
  {
    UnmintMint(a);
    UnmintMint(b);
    MintUnmint(token);
  }

  lemma Congruent(a: nat, b: nat)
    ensures a % M64 == b % M64 <==> (a - b) % M64 == 0
  {
    var q := a / M64 - b / M64;
    assert a - b == q * M64 + (a % M64 - b % M64);
    if (a - b) % M64 == 0 { assert a - b == (a - b) / M64 * M64; }
  }

  lemma Close(a: u64, b: u64)
    ensures (a - b) % M64 == 0 <==> a == b
  {
  }

  /** Logins of one web task at different seconds mint different tokens; two tasks collide iff their
      seeds make up for the difference in time. */
  lemma MintsCollide(seed: u64, t: u64, seed': u64, t': u64)
    ensures Mint(WrappingAdd(seed, t)) == Mint(WrappingAdd(seed', t')) <==> (seed + t - seed' - t') % M64 == 0
    ensures seed == seed' && t != t' ==> Mint(WrappingAdd(seed, t)) != Mint(WrappingAdd(seed', t'))
  {
    MintIsBijection(WrappingAdd(seed, t), WrappingAdd(seed', t'), 0);
    Congruent(seed + t, seed' + t');
    if seed == seed' { Close(t, t'); }
  }

  // ---------------------------------------------------------------- two 32-bit atomics

  function Hi(token: u64): u32 { token / M32 % M32 }

  function Lo(token: u64): u32 { token % M32 }

  function Rejoin(hi: u32, lo: u32): u64 { hi * M32 + lo }

  lemma SplitRejoin(token: u64)
    ensures Rejoin(Hi(token), Lo(token)) == token
  {
  }
}
