/** The AArch64 memset: stores in the order of the listing, and the DC ZVA loop when it applies. */
module Memset {
  import opened Memory
  import Bits

  ghost predicate Granted(cpu: Machine, dstin: nat, count: nat) {
    cpu.Valid() && cpu.writeLo == dstin && cpu.writeHi == dstin + count
  }

  /** Of the n bytes at dest the first k and the last t have become b. */
  ghost predicate Ends(m': seq<Byte>, m: seq<Byte>, dest: nat, b: Byte, n: nat, k: nat, t: nat) {
    |m'| == |m| && dest + n <= |m| && k <= n && t <= n &&
    forall i :: 0 <= i < |m| ==>
      m'[i] == if dest <= i < dest + k || dest + n - t <= i < dest + n then b else m[i]
  }

  lemma {:induction false} EndsNothing(m: seq<Byte>, dest: nat, b: Byte, n: nat)
    requires dest + n <= |m|
    ensures Ends(m, m, dest, b, n, 0, 0)
  {
  }

  lemma {:induction false} EndsMeet(m': seq<Byte>, m: seq<Byte>, dest: nat, b: Byte, n: nat, k: nat, t: nat)
    requires Ends(m', m, dest, b, n, k, t) && n <= k + t
    ensures Filled(m', m, dest, b, n)
  {
    assert m' == m[..dest] + Repeat(b, n) + m[dest + n..];
  }

  lemma {:induction false} FrontStore(m': seq<Byte>, m'': seq<Byte>, m: seq<Byte>, dest: nat, b: Byte, n: nat,
                                      k: nat, t: nat, j: nat, w: nat)
    requires Ends(m', m, dest, b, n, k, t) && j <= k && j + w <= n
    requires Writes(m'', m', dest + j, Repeat(b, w))
    ensures Ends(m'', m, dest, b, n, Max(k, j + w), t)
  {
  }

  lemma {:induction false} BackStore(m': seq<Byte>, m'': seq<Byte>, m: seq<Byte>, dest: nat, b: Byte, n: nat,
                                     k: nat, t: nat, j: nat, w: nat)
    requires Ends(m', m, dest, b, n, k, t) && w <= j <= t + w && j <= n
    requires Writes(m'', m', dest + n - j, Repeat(b, w))
    ensures Ends(m'', m, dest, b, n, k, Max(t, j))
  {
  }

  /** A store of w copies of b at dest + j, j bytes or more being set already. */
  method Front(cpu: Machine, a: int, b: Byte, w: nat,
               ghost m: seq<Byte>, ghost dest: nat, ghost n: nat, ghost k: nat, ghost t: nat, ghost j: nat)
    requires Granted(cpu, dest, n) && a == dest + j && j <= k && j + w <= n
    requires Ends(cpu.Bytes(), m, dest, b, n, k, t)
    modifies cpu.mem
    ensures Ends(cpu.Bytes(), m, dest, b, n, Max(k, j + w), t)
  {
    hide Ends, Writes, Repeat;
    ghost var was := cpu.Bytes();
    cpu.Store(a, Repeat(b, w));
    FrontStore(was, cpu.Bytes(), m, dest, b, n, k, t, j, w);
  }

  /** A store of w copies of b ending no further than t + w from the end. */
  method Back(cpu: Machine, a: int, b: Byte, w: nat,
              ghost m: seq<Byte>, ghost dest: nat, ghost n: nat, ghost k: nat, ghost t: nat, ghost j: nat)
    requires Granted(cpu, dest, n) && a == dest + n - j && w <= j <= t + w && j <= n
    requires Ends(cpu.Bytes(), m, dest, b, n, k, t)
    modifies cpu.mem
    ensures Ends(cpu.Bytes(), m, dest, b, n, k, Max(t, j))
  {
    hide Ends, Writes, Repeat;
    ghost var was := cpu.Bytes();
    cpu.Store(a, Repeat(b, w));
    BackStore(was, cpu.Bytes(), m, dest, b, n, k, t, j, w);
  }

  /** 0..15 bytes. */
  method SetSmall(cpu: Machine, dstin: nat, b: Byte, count: nat)
    requires Granted(cpu, dstin, count) && count < 16
    modifies cpu.mem
    ensures Filled(cpu.Bytes(), old(cpu.Bytes()), dstin, b, count)
  {
    hide Ends, Filled;
    ghost var m := cpu.Bytes();
    var dstend := dstin + count;
    EndsNothing(m, dstin, b, count);
    if (count / 8) % 2 == 1 {
      Front(cpu, dstin, b, 8, m, dstin, count, 0, 0, 0);
      Front(cpu, dstend - 8, b, 8, m, dstin, count, 8, 0, count - 8);
    } else if (count / 4) % 2 == 1 {
      Front(cpu, dstin, b, 4, m, dstin, count, 0, 0, 0);
      Front(cpu, dstend - 4, b, 4, m, dstin, count, 4, 0, count - 4);
    } else if count != 0 {
      Front(cpu, dstin, b, 1, m, dstin, count, 0, 0, 0);
      if (count / 2) % 2 == 1 {
        Front(cpu, dstend - 2, b, 2, m, dstin, count, 1, 0, count - 2);
      }
    }
    EndsMeet(cpu.Bytes(), m, dstin, b, count, count, 0);
  }

  /** 16..96 bytes. */
  method SetMedium(cpu: Machine, dstin: nat, b: Byte, count: nat)
    requires Granted(cpu, dstin, count) && 16 <= count <= 96
    modifies cpu.mem
    ensures Filled(cpu.Bytes(), old(cpu.Bytes()), dstin, b, count)
  {
    hide Ends, Filled;
    ghost var m := cpu.Bytes();
    var dstend := dstin + count;
    EndsNothing(m, dstin, b, count);
    Front(cpu, dstin, b, 16, m, dstin, count, 0, 0, 0);
    if (count / 64) % 2 == 1 {
      Front(cpu, dstin + 16, b, 16, m, dstin, count, 16, 0, 16);
      Front(cpu, dstin + 32, b, 32, m, dstin, count, 32, 0, 32);
      Front(cpu, dstend - 32, b, 32, m, dstin, count, 64, 0, count - 32);
      EndsMeet(cpu.Bytes(), m, dstin, b, count, count, 0);
      return;
    }
    Back(cpu, dstend - 16, b, 16, m, dstin, count, 16, 0, 16);
    if (count / 32) % 2 == 1 {
      Front(cpu, dstin + 16, b, 16, m, dstin, count, 16, 16, 16);
      Back(cpu, dstend - 32, b, 16, m, dstin, count, 32, 16, 32);
      EndsMeet(cpu.Bytes(), m, dstin, b, count, 32, 32);
    } else {
      EndsMeet(cpu.Bytes(), m, dstin, b, count, 16, 16);
    }
  }

  /** The loop without DC ZVA, from the 16 bytes already set on. */
  method SetNoZva(cpu: Machine, dstin: nat, b: Byte, dst0: int, dstend: nat, ghost m: seq<Byte>, ghost n: nat)
    requires Granted(cpu, dstin, n) && 96 < n && dstend == dstin + n && dst0 == dstin - dstin % 16
    requires Ends(cpu.Bytes(), m, dstin, b, n, 16, 0)
    modifies cpu.mem
    ensures Filled(cpu.Bytes(), m, dstin, b, n)
  {
    hide Ends, Filled;
    var count := dstend - dst0;
    var dst := dst0 - 16;
    count := count - (64 + 16);
    ghost var k := 16;
    var higher := true;
    while higher
      invariant count == dstend - dst - 96 && dst + 32 - dstin <= k <= n && 0 <= dst + 32 - dstin
      invariant Ends(cpu.Bytes(), m, dstin, b, n, k, 0)
      invariant if higher then 0 < count else n - 64 <= k
      decreases higher, count
    {
      Front(cpu, dst + 32, b, 32, m, dstin, n, k, 0, dst + 32 - dstin);
      k := Max(k, dst + 64 - dstin);
      Front(cpu, dst + 64, b, 32, m, dstin, n, k, 0, dst + 64 - dstin);
      k := Max(k, dst + 96 - dstin);
      dst := dst + 64;
      higher := 64 < count;
      count := count - 64;
    }
    SetLast64(cpu, dstin, b, dstend, m, n, k);
  }

  /** The 64 bytes at the end, common to both loops. */
  method SetLast64(cpu: Machine, ghost dstin: nat, b: Byte, dstend: nat, ghost m: seq<Byte>, ghost n: nat, ghost k: nat)
    requires Granted(cpu, dstin, n) && 64 <= n && dstend == dstin + n && n - 64 <= k <= n
    requires Ends(cpu.Bytes(), m, dstin, b, n, k, 0)
    modifies cpu.mem
    ensures Filled(cpu.Bytes(), m, dstin, b, n)
  {
    hide Ends, Filled;
    Front(cpu, dstend - 64, b, 32, m, dstin, n, k, 0, n - 64);
    Front(cpu, dstend - 32, b, 32, m, dstin, n, Max(k, n - 32), 0, n - 32);
    EndsMeet(cpu.Bytes(), m, dstin, b, n, n, 0);
  }

  /** One DC ZVA of 64 bytes at an aligned address. */
  method ZeroBlock(cpu: Machine, dst: nat, ghost m: seq<Byte>, ghost dest: nat, ghost n: nat, ghost k: nat)
    requires Granted(cpu, dest, n) && cpu.dczid % 32 == 4 && dst % 64 == 0
    requires dest <= dst <= dest + k && dst + 64 <= dest + n
    requires Ends(cpu.Bytes(), m, dest, 0, n, k, 0)
    modifies cpu.mem
    ensures Ends(cpu.Bytes(), m, dest, 0, n, Max(k, dst + 64 - dest), 0)
  {
    hide Ends, Writes, Repeat;
    ghost var was := cpu.Bytes();
    assert cpu.ZvaBlock() == 64 by {
      assert Bits.Pow2(4) == 16;
    }
    cpu.DcZva(dst);
    FrontStore(was, cpu.Bytes(), m, dest, 0, n, k, 0, dst - dest, 64);
  }

  lemma {:induction false} BlockStart(p: nat, dst: int)
    requires dst == p - p % 64
    ensures 0 <= dst <= p < dst + 64 && dst % 64 == 0
  {
  }

  lemma {:induction false} NextBlock(dst: nat)
    requires dst % 64 == 0
    ensures (dst + 64) % 64 == 0
  {
  }

  /** 160 bytes or more of zero, with a block size of 64. */
  method SetZva(cpu: Machine, dstin: nat, dst0: nat, dstend: nat, ghost m: seq<Byte>, ghost n: nat)
    requires Granted(cpu, dstin, n) && 160 <= n && dstend == dstin + n && dst0 == dstin - dstin % 16
    requires cpu.dczid % 32 == 4 && Ends(cpu.Bytes(), m, dstin, 0, n, 16, 0)
    modifies cpu.mem
    ensures Filled(cpu.Bytes(), m, dstin, 0, n)
  {
    hide Ends, Filled, Granted;
    Front(cpu, dst0 + 16, 0, 16, m, dstin, n, 16, 0, dst0 + 16 - dstin);
    Front(cpu, dst0 + 32, 0, 32, m, dstin, n, Max(16, dst0 + 32 - dstin), 0, dst0 + 32 - dstin);
    ghost var k := Max(16, dst0 + 64 - dstin);
    var dst := dst0 - dst0 % 64;
    BlockStart(dst0, dst);
    var count := dstend - dst;
    count := count - 128;
    var higher := true;
    while higher
      invariant dst % 64 == 0 && count == dstend - dst - 128
      invariant dstin < dst + 64 <= dstin + k && k <= n
      invariant Ends(cpu.Bytes(), m, dstin, 0, n, k, 0)
      invariant if higher then 0 < count else n - 64 <= k
      decreases higher, count
    {
      NextBlock(dst);
      dst := dst + 64;
      ZeroBlock(cpu, dst, m, dstin, n, k);
      k := Max(k, dst + 64 - dstin);
      higher := 64 < count;
      count := count - 64;
    }
    SetLast64(cpu, dstin, 0, dstend, m, n, k);
  }

  /** The whole routine: the low byte of c in exactly the count bytes at dstin, whatever dczid_el0 says. */
  method Memset(cpu: Machine, dstin: nat, c: int, count: nat) returns (x0: nat)
    requires Granted(cpu, dstin, count)
    modifies cpu.mem
    ensures x0 == dstin && Filled(cpu.Bytes(), old(cpu.Bytes()), dstin, c % 256, count)
  {
    hide Ends, Filled;
    x0 := dstin;
    var b: Byte := c % 256;
    if count <= 96 {
      if count < 16 {
        SetSmall(cpu, dstin, b, count);
      } else {
        SetMedium(cpu, dstin, b, count);
      }
      return;
    }
    ghost var m := cpu.Bytes();
    var dstend := dstin + count;
    var dst := dstin - dstin % 16;
    EndsNothing(m, dstin, b, count);
    Front(cpu, dstin, b, 16, m, dstin, count, 0, 0, 0);
    if 160 <= count && b == 0 && cpu.dczid % 32 == 4 {
      SetZva(cpu, dstin, dst, dstend, m, count);
    } else {
      SetNoZva(cpu, dstin, b, dst, dstend, m, count);
    }
  }

  /** DC ZVA is reached only where it is permitted and zeroes 64 bytes. */
  lemma {:induction false} ZvaCheck(cpu: Machine)
    ensures cpu.dczid % 32 == 4 ==> (cpu.dczid / 16) % 2 == 0 && cpu.ZvaBlock() == 64
    ensures (cpu.dczid / 16) % 2 == 0 && cpu.ZvaBlock() == 64 ==> cpu.dczid % 32 == 4
  {
    var k := cpu.dczid % 16;
    assert Bits.Pow2(2) == 4 && Bits.Pow2(3) == 8 && Bits.Pow2(4) == 16;
    if 4 < k {
      Bits.Pow2Grows(4, k);
    } else if k < 4 {
      Bits.Pow2Grows(k, 4);
    }
  }
}
