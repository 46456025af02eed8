/** Internet checksums: the one's-complement sum of 16-bit words, in both byte orders. */
module Checksum {
  import opened Bytes

  const M: nat := 0xFFFF

  // ----- sums of words -----

  /** Sum of the big-endian words, an odd last byte standing high. */
  function BeSum(data: seq<byte>): (n: nat)
    ensures n <= 0x8000 * |data| + 0x8000
  {
    if |data| == 0 then 0
    else if |data| == 1 then 0x100 * data[0]
    else 0x100 * data[0] + data[1] + BeSum(data[2..])
  }

  /** Sum of the words as a little-endian machine reads them, an odd last byte standing low. */
  function LeSum(data: seq<byte>): (n: nat)
    ensures n <= 0x8000 * |data| + 0x8000
  {
    if |data| == 0 then 0
    else if |data| == 1 then data[0] as nat
    else data[0] + 0x100 * data[1] + LeSum(data[2..])
  }

  function Swap16(x: nat): (y: nat)
    requires x < 0x1_0000
    ensures y < 0x1_0000
  {
    x % 0x100 * 0x100 + x / 0x100
  }

  /** What folding the carries back in leaves: zero for zero, else the residue modulo 65535 with 65535
      for zero. */
  function Folded(sum: nat): (f: nat)
    ensures f <= M
  {
    if sum == 0 then 0 else (sum - 1) % M + 1
  }

  function Complement(sum: nat): (c: nat)
    ensures c <= M
  {
    M - Folded(sum)
  }

  lemma {:induction false} BeSumConcat(a: seq<byte>, b: seq<byte>)
    requires |a| % 2 == 0
    ensures BeSum(a + b) == BeSum(a) + BeSum(b)
  {
    if a == [] {
      assert a + b == b;
    } else {
      assert (a + b)[2..] == a[2..] + b;
      BeSumConcat(a[2..], b);
    }
  }

  lemma {:induction false} LeSumConcat(a: seq<byte>, b: seq<byte>)
    requires |a| % 2 == 0
    ensures LeSum(a + b) == LeSum(a) + LeSum(b)
  {
    if a == [] {
      assert a + b == b;
    } else {
      assert (a + b)[2..] == a[2..] + b;
      LeSumConcat(a[2..], b);
    }
  }

  /** Swapping the bytes of every word multiplies the sum by 256, modulo 65535. */
  lemma {:induction false} LeIsSwappedBe(data: seq<byte>) returns (k: nat)
    ensures 0x100 * BeSum(data) == LeSum(data) + k * M
    ensures k <= BeSum(data) && (BeSum(data) == 0 <==> LeSum(data) == 0)
  {
    if |data| == 0 {
      k := 0;
    } else if |data| == 1 {
      k := data[0] as nat;
    } else {
      var j := LeIsSwappedBe(data[2..]);
      k := j + data[0];
    }
  }

  lemma FoldedStep(sum: nat)
    requires sum >= 0x1_0000
    ensures sum % 0x1_0000 + sum / 0x1_0000 < sum && Folded(sum % 0x1_0000 + sum / 0x1_0000) == Folded(sum)
  {
    var next := sum % 0x1_0000 + sum / 0x1_0000;
    assert sum == next + sum / 0x1_0000 * M;
    FoldedShift(next, sum / 0x1_0000);
  }

  lemma FoldedShift(n: nat, k: nat)
    requires n > 0
    ensures Folded(n + k * M) == Folded(n)
  {
    var q := (n - 1) / M;
    assert n - 1 == q * M + (n - 1) % M;
    assert n + k * M - 1 == (q + k) * M + (n - 1) % M;
  }

  lemma FoldedSmall(n: nat)
    requires n < 0x1_0000
    ensures Folded(n) == n
  {
  }

  lemma SwapFolds(x: nat)
    requires 0 < x <= M
    ensures 0x100 * x == Swap16(x) + x / 0x100 * M
  {
  }

  /** Folding the little-endian sum gives the byte swap of folding the big-endian one. */
  lemma SumsSwap(data: seq<byte>)
    ensures Folded(LeSum(data)) == Swap16(Folded(BeSum(data)))
  {
    var k := LeIsSwappedBe(data);
    var be, le := BeSum(data), LeSum(data);
    if be > 0 {
      var f, q := Folded(be), (be - 1) / M;
      assert be == q * M + f;
      SwapFolds(f);
      assert 0x100 * be == Swap16(f) + (0x100 * q + f / 0x100) * M;
      FoldedShift(Swap16(f), 0x100 * q + f / 0x100);
      FoldedShift(le, k);
      FoldedSmall(Swap16(f));
    }
  }

  lemma SwapComplement(x: nat)
    requires x <= M
    ensures M - Swap16(x) == Swap16(M - x)
  {
  }

  /** Adding the complement of a sum, or 65535 in place of a zero complement, folds to all ones. */
  lemma ComplementSums(sum: nat, c: nat)
    requires c == Complement(sum) || (Complement(sum) == 0 && c == M)
    requires sum > 0 || c > 0
    ensures Folded(sum + c) == M && Complement(sum + c) == 0
  {
    var f := Folded(sum);
    if sum > 0 {
      var q := (sum - 1) / M;
      assert sum == q * M + f;
      if c == Complement(sum) {
        assert sum + c == M + q * M;
      } else {
        assert sum + c == M + (q + 1) * M;
        FoldedShift(M, q + 1);
      }
      FoldedShift(M, q);
    }
  }

  /** A message checks out exactly when its sum is a positive multiple of 65535. */
  lemma ChecksWhen(sum: nat)
    ensures Complement(sum) == 0 <==> sum > 0 && sum % M == 0
  {
    if sum > 0 {
      var q, r := (sum - 1) / M, (sum - 1) % M;
      assert sum == q * M + r + 1;
      if r + 1 == M {
        assert sum == (q + 1) * M;
      } else {
        assert sum % M == r + 1;
      }
    }
  }

  // ----- the loops -----

  /** checksum_add, with its 32-bit accumulator. */
  method ChecksumAdd(sum0: nat, data: seq<byte>) returns (sum: nat)
    requires |data| < 0x1_0000 && sum0 < 0x1000_0000
    ensures sum == sum0 + BeSum(data) < 0x1_0000_0000
  {
    sum := sum0;
    var i := 0;
    while |data| - i >= 2
      invariant i <= |data| && sum + BeSum(data[i..]) == sum0 + BeSum(data)
      decreases |data| - i
    {
      assert data[i..][2..] == data[i + 2..];
      sum := (sum + 0x100 * (data[i] as nat) + data[i + 1]) % 0x1_0000_0000;
      i := i + 2;
    }
    if |data| - i != 0 {
      assert |data[i..]| == 1;
      sum := (sum + 0x100 * (data[i] as nat)) % 0x1_0000_0000;
    }
  }

  /** The loop that folds the carries back in. */
  method Fold(sum0: nat) returns (sum: nat)
    ensures sum == Folded(sum0)
  {
    sum := sum0;
    while sum / 0x1_0000 != 0
      invariant Folded(sum) == Folded(sum0)
      decreases sum
    {
      FoldedStep(sum);
      sum := sum % 0x1_0000 + sum / 0x1_0000;
    }
    FoldedSmall(sum);
  }

  /** The summing loop of ip_checksum. */
  method LeAdd(data: seq<byte>) returns (sum: nat)
    requires |data| < 0x1_0000
    ensures sum == LeSum(data)
  {
    sum := 0;
    var i := 0;
    while |data| - i > 1
      invariant i <= |data| && sum + LeSum(data[i..]) == LeSum(data)
      decreases |data| - i
    {
      assert data[i..][2..] == data[i + 2..];
      sum := (sum + data[i] + 0x100 * (data[i + 1] as nat)) % 0x1_0000_0000;
      i := i + 2;
    }
    if |data| - i == 1 {
      assert |data[i..]| == 1;
      sum := (sum + data[i]) % 0x1_0000_0000;
    }
  }

  /** ip_checksum, over little-endian words: the byte swap of the big-endian checksum. */
  method IpChecksum(data: seq<byte>) returns (c: nat)
    requires |data| < 0x1_0000
    ensures c == Complement(LeSum(data)) && c == Swap16(Complement(BeSum(data)))
  {
    var sum := LeAdd(data);
    sum := Fold(sum);
    c := M - sum;
    SumsSwap(data);
    SwapComplement(Folded(BeSum(data)));
  }
}
