/** Bytes, fixed-width words and their big-endian encoding. */
module ByteStrings {

  type byte = b: int | 0 <= b < 256
  type Bytes = seq<byte>

  type u16 = n: int | 0 <= n < 0x1_0000
  type u32 = n: int | 0 <= n < 0x1_0000_0000
  type u64 = n: int | 0 <= n < 0x1_0000_0000_0000_0000

  const U64_MAX: u64 := 0xFFFF_FFFF_FFFF_FFFF

  /** A growable byte vector: its length is a `usize`, modelled as 64 bits wide. */
  type ByteVec = b: Bytes | |b| <= U64_MAX

  type Bytes16 = b: Bytes | |b| == 16 witness seq(16, _ => 0)
  type Bytes32 = b: Bytes | |b| == 32 witness seq(32, _ => 0)
  type Bytes33 = b: Bytes | |b| == 33 witness seq(33, _ => 0)
  type Bytes64 = b: Bytes | |b| == 64 witness seq(64, _ => 0)

  /** A range within a range. */
  lemma RangeWithin(mem: Bytes, from: nat, n: nat, at: nat, k: nat)
    requires from <= at && at + k <= from + n <= |mem|
    ensures mem[at..at + k] == mem[from..from + n][at - from..at - from + k]
  {
    var part, d := mem[from..from + n], at - from;
    var left, right := mem[at..at + k], part[d..d + k];
    forall i | 0 <= i < k
      ensures left[i] == right[i]
    {
      assert part[d + i] == mem[from + (d + i)];
    }
  }

  /** 256 to the power `k`: how many values `k` bytes can hold. */
  function Pow256(k: nat): (p: nat)
    ensures p >= 1
  {
    if k == 0 then 1 else 256 * Pow256(k - 1)
  }

  /** The low `k` bytes of `n`, most significant first. */
  function BeBytes(n: nat, k: nat): (b: Bytes)
    ensures |b| == k
  {
    if k == 0 then [] else BeBytes(n / 256, k - 1) + [n % 256]
  }

  function BeValue(b: Bytes): nat {
    if b == [] then 0 else BeValue(b[..|b| - 1]) * 256 + b[|b| - 1]
  }

  lemma {:induction false} BeValueOfBytes(n: nat, k: nat)
    requires n < Pow256(k)
    ensures BeValue(BeBytes(n, k)) == n
  {
    if k > 0 {
      BeValueOfBytes(n / 256, k - 1);
      var b := BeBytes(n, k);
      assert b[..|b| - 1] == BeBytes(n / 256, k - 1);
    }
  }

  lemma {:induction false} BeBytesOfValue(b: Bytes)
    ensures BeValue(b) < Pow256(|b|)
    ensures BeBytes(BeValue(b), |b|) == b
  {
    if b != [] {
      var init := b[..|b| - 1];
      BeBytesOfValue(init);
      var n := BeValue(b);
      assert n / 256 == BeValue(init) && n % 256 == b[|b| - 1];
      assert b == init + [b[|b| - 1]];
    }
  }

  /** The first byte weighs most: each has 256 to the number of bytes behind it. */
  lemma {:induction false} FirstWeighsMost(x: byte, b: Bytes)
    ensures BeValue([x] + b) == x * Pow256(|b|) + BeValue(b)
  {
    var all := [x] + b;
    if b == [] {
      assert all[..0] == [];
    } else {
      var init := b[..|b| - 1];
      FirstWeighsMost(x, init);
      assert all[..|b|] == [x] + init;
      assert x * (256 * Pow256(|init|)) == 256 * (x * Pow256(|init|));
    }
  }

  lemma Widths()
    ensures Pow256(1) == 0x100
    ensures Pow256(2) == 0x1_0000
    ensures Pow256(4) == 0x1_0000_0000
    ensures Pow256(8) == 0x1_0000_0000_0000_0000
  {
    assert Pow256(3) == 256 * Pow256(2);
    assert Pow256(5) == 256 * Pow256(4);
    assert Pow256(6) == 256 * Pow256(5);
    assert Pow256(7) == 256 * Pow256(6);
  }

  /** Big-endian order on equally long strings is the order of their values. */
  lemma {:induction false} BeValueInjective(a: Bytes, b: Bytes)
    requires |a| == |b|
    ensures BeValue(a) == BeValue(b) <==> a == b
  {
    BeBytesOfValue(a);
    BeBytesOfValue(b);
  }

  /** Four bytes, least significant first. */
  function LeBytes32(n: u32): (b: Bytes)
    ensures |b| == 4
  {
    [n % 0x100, n / 0x100 % 0x100, n / 0x1_0000 % 0x100, n / 0x100_0000]
  }

  function LeValue32(b: Bytes): u32
    requires |b| == 4
  {
    var b0: int, b1: int, b2: int, b3: int := b[0], b[1], b[2], b[3];
    b0 + 0x100 * b1 + 0x1_0000 * b2 + 0x100_0000 * b3
  }

  /** The number a string of bytes is, the first weighing least. */
  function LeNumber(b: Bytes): nat {
    if b == [] then 0 else (b[0] as int) + 256 * LeNumber(b[1..])
  }

  lemma {:induction false} LeNumberAppend(a: Bytes, b: Bytes)
    ensures LeNumber(a + b) == LeNumber(a) + Pow256(|a|) * LeNumber(b)
  {
    if a == [] {
      assert a + b == b;
    } else {
      LeNumberAppend(a[1..], b);
      assert (a + b)[1..] == a[1..] + b;
      assert 256 * (Pow256(|a| - 1) * LeNumber(b)) == (256 * Pow256(|a| - 1)) * LeNumber(b);
    }
  }

  lemma {:induction false} LeNumberInjective(a: Bytes, b: Bytes)
    requires |a| == |b| && LeNumber(a) == LeNumber(b)
    ensures a == b
  {
    if a != [] {
      var x: int, y: int := a[0], b[0];
      assert x == LeNumber(a) % 256 && y == LeNumber(b) % 256;
      LeNumberInjective(a[1..], b[1..]);
      assert a == [a[0]] + a[1..] && b == [b[0]] + b[1..];
    }
  }

  lemma LittleEndian(n: u32)
    ensures LeNumber(LeBytes32(n)) == n
  {
    var b := LeBytes32(n);
    LeReadsBack(n);
    assert b[1..][1..] == b[2..] && b[2..][1..] == b[3..] && b[3..][1..] == [];
    assert LeNumber(b[3..]) == b[3] && LeNumber(b[2..]) == (b[2] as int) + 256 * LeNumber(b[3..]);
    assert LeNumber(b[1..]) == (b[1] as int) + 256 * LeNumber(b[2..]);
  }

  lemma LeReadsBack(n: u32)
    ensures LeValue32(LeBytes32(n)) == n
  {
    var q, r, t: int := n / 0x100, n / 0x1_0000, n / 0x100_0000;
    assert n == 0x100 * q + n % 0x100 && q == 0x100 * r + q % 0x100 && r == 0x100 * t + r % 0x100;
  }

  /** Eight bytes, least significant first. */
  function LeBytes64(n: u64): (b: Bytes)
    ensures |b| == 8
  {
    LeBytes32(n % 0x1_0000_0000) + LeBytes32(n / 0x1_0000_0000)
  }

  function LeValue64(b: Bytes): u64
    requires |b| == 8
  {
    var low: int, high: int := LeValue32(b[..4]), LeValue32(b[4..]);
    low + 0x1_0000_0000 * high
  }

  lemma LeReadsBack64(n: u64)
    ensures LeValue64(LeBytes64(n)) == n
  {
    hide LeBytes32, LeValue32;
    var low, high := LeBytes32(n % 0x1_0000_0000), LeBytes32(n / 0x1_0000_0000);
    assert LeBytes64(n)[..4] == low && LeBytes64(n)[4..] == high;
    LeReadsBack(n % 0x1_0000_0000);
    LeReadsBack(n / 0x1_0000_0000);
  }

  lemma LittleEndian64(n: u64)
    ensures LeNumber(LeBytes64(n)) == n
  {
    hide LeBytes32, LeNumber;
    Widths();
    LittleEndian(n % 0x1_0000_0000);
    LittleEndian(n / 0x1_0000_0000);
    LeNumberAppend(LeBytes32(n % 0x1_0000_0000), LeBytes32(n / 0x1_0000_0000));
  }
}
