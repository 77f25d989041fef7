/** Bytes, machine words and their little-endian layout. */
module Bytes {

  type byte = x: int | 0 <= x < 256
  type u64 = x: int | 0 <= x < U64_LIMIT

  const U32_LIMIT: nat := 0x1_0000_0000
  const U64_LIMIT: nat := 0x1_0000_0000_0000_0000

  function Pow256(k: nat): (r: nat)
    ensures r > 0
  {
    if k == 0 then 1 else 256 * Pow256(k - 1)
  }

  lemma {:induction false} Pow256Values()
    ensures Pow256(2) == 0x1_0000 && Pow256(4) == U32_LIMIT && Pow256(8) == U64_LIMIT
  {
    assert Pow256(3) == 0x100_0000;
    assert Pow256(5) == 256 * Pow256(4);
    assert Pow256(6) == 256 * Pow256(5);
    assert Pow256(7) == 256 * Pow256(6);
  }

  /** The low `k` bytes of `n`, least significant first: a truncating `put_u8/16/32/64_le`. */
  function Le(n: nat, k: nat): (r: seq<byte>)
    ensures |r| == k
  {
    if k == 0 then [] else [n % 256] + Le(n / 256, k - 1)
  }

  function FromLe(s: seq<byte>): nat
  {
    if s == [] then 0 else s[0] + 256 * FromLe(s[1..])
  }

  lemma {:induction false} FromLeLe(n: nat, k: nat)
    requires n < Pow256(k)
    ensures FromLe(Le(n, k)) == n
  {
    if k > 0 {
      FromLeLe(n / 256, k - 1);
      assert Le(n, k)[1..] == Le(n / 256, k - 1);
    }
  }

  lemma {:induction false} LeFromLe(s: seq<byte>)
    ensures FromLe(s) < Pow256(|s|)
    ensures Le(FromLe(s), |s|) == s
  {
    if s != [] {
      LeFromLe(s[1..]);
      LowByte(s[0], FromLe(s[1..]));
      assert s == [s[0]] + s[1..];
    }
  }

  lemma {:induction false} LowByte(low: byte, high: nat)
    ensures (low + 256 * high) % 256 == low && (low + 256 * high) / 256 == high
  {
  }

  /** A word read from memory is zero exactly when all its bytes are. */
  lemma {:induction false} FromLeZero(s: seq<byte>)
    ensures FromLe(s) == 0 <==> forall i :: 0 <= i < |s| ==> s[i] == 0
  {
    if s != [] {
      FromLeZero(s[1..]);
      if FromLe(s) == 0 {
        forall i | 0 <= i < |s| ensures s[i] == 0 {
          if i > 0 { assert s[i] == s[1..][i - 1]; }
        }
      } else if s[0] == 0 {
        var i :| 0 <= i < |s[1..]| && s[1..][i] != 0;
        assert s[i + 1] != 0;
      }
    }
  }

  lemma {:induction false} FromLeLe64(n: u64)
    ensures FromLe(Le(n, 8)) == n
  {
    Pow256Values();
    FromLeLe(n, 8);
  }

  lemma {:induction false} FromLeLe32(n: nat)
    requires n < U32_LIMIT
    ensures FromLe(Le(n, 4)) == n
  {
    Pow256Values();
    FromLeLe(n, 4);
  }

  /** `n` zero bytes. */
  function Zeros(n: nat): (r: seq<byte>)
    ensures |r| == n && forall i :: 0 <= i < n ==> r[i] == 0
  {
    seq(n, _ => 0)
  }

  /** The layout itself: the least significant byte comes first. */
  lemma {:induction false} LeBytes(n: nat)
    ensures Le(n, 1) == [n % 256]
    ensures Le(n, 2) == [n % 256, n / 0x100 % 256]
    ensures Le(n, 4) == [n % 256, n / 0x100 % 256, n / 0x1_0000 % 256, n / 0x100_0000 % 256]
    ensures Le(n, 8) == Le(n, 4) + Le(n / 0x1_0000_0000, 4)
  {
    LeOne(n);
    LeTwo(n);
    LeFour(n);
    LeApart(n, 4, 4);
    DivideTwice(n);
    assert Divided(n, 4) == n / 0x1_0000_0000 by {
      DividedTwo(n);
      DividedTwo(n / 0x1_0000);
    }
  }

  lemma {:induction false} LeOne(n: nat)
    ensures Le(n, 1) == [n % 256]
  {
  }

  lemma {:induction false} LeTwo(n: nat)
    ensures Le(n, 2) == [n % 256, n / 0x100 % 256]
  {
    LeOne(n / 256);
  }

  lemma {:induction false} LeFour(n: nat)
    ensures Le(n, 4) == [n % 256, n / 0x100 % 256, n / 0x1_0000 % 256, n / 0x100_0000 % 256]
  {
    LeTwo(n);
    LeTwo(n / 0x1_0000);
    LeApart(n, 2, 2);
    DividedTwo(n);
    DivideTwice(n);
  }

  /** `n` without its low `k` bytes. */
  function Divided(n: nat, k: nat): nat {
    if k == 0 then n else Divided(n / 256, k - 1)
  }

  lemma {:induction false} DividedTwo(n: nat)
    ensures Divided(n, 2) == n / 0x1_0000
    ensures Divided(n, 4) == Divided(n / 0x1_0000, 2)
  {
    DivideTwice(n);
    assert Divided(n, 2) == Divided(n / 256, 1) == Divided(n / 256 / 256, 0);
    assert Divided(n, 4) == Divided(n / 256, 3) == Divided(n / 256 / 256, 2);
  }

  lemma {:induction false} DivideTwice(n: nat)
    ensures n / 0x100 / 0x100 == n / 0x1_0000
    ensures n / 0x1_0000 / 0x100 == n / 0x100_0000
    ensures n / 0x1_0000 / 0x1_0000 == n / 0x1_0000_0000
  {
  }

  lemma {:induction false} LeApart(n: nat, j: nat, k: nat)
    ensures Le(n, j + k) == Le(n, j) + Le(Divided(n, j), k)
  {
    if j > 0 {
      LeApart(n / 256, j - 1, k);
    } else {
      assert [] + Le(n, k) == Le(n, k);
    }
  }
}
