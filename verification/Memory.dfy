/**
 A byte-addressed memory, as an AArch64 routine sees it: addresses are indices, loads must fall in the
 readable window and stores in the writable one (anything else would be a fault), and several bytes move
 at once. Also the byte loops of the portable implementation, and what all of them compute.
 */
module Memory {

  import opened Bits

  type Byte = x: int | 0 <= x < 256

  /** A pointer as C functions pass and return it. */
  datatype Ptr = Null | At(p: nat)

  function Max(a: nat, b: nat): nat {
    if a < b then b else a
  }

  /** r holds the k bytes at a. */
  ghost predicate Reads(r: seq<Byte>, m: seq<Byte>, a: nat, k: nat) {
    a + k <= |m| && r == m[a..a + k]
  }

  /** Memory m' is m after r has been stored at a. */
  ghost predicate Writes(m': seq<Byte>, m: seq<Byte>, a: nat, r: seq<Byte>) {
    a + |r| <= |m| && m' == m[..a] + r + m[a + |r|..]
  }

  /** Memory m' is `base`, except that its n bytes at dest are the n bytes that m has at src. */
  ghost predicate Patched(m': seq<Byte>, base: seq<Byte>, m: seq<Byte>, dest: nat, src: nat, n: nat) {
    |base| == |m| && dest + n <= |m| && src + n <= |m| &&
    m' == base[..dest] + m[src..src + n] + base[dest + n..]
  }

  /** Memory m' is m after the n bytes at src have been copied to dest, as if through a buffer. */
  ghost predicate Copied(m': seq<Byte>, m: seq<Byte>, dest: nat, src: nat, n: nat) {
    Patched(m', m, m, dest, src, n)
  }

  /** Memory m' is m after the n bytes at dest have become b. */
  ghost predicate Filled(m': seq<Byte>, m: seq<Byte>, dest: nat, b: Byte, n: nat) {
    dest + n <= |m| && m' == m[..dest] + Repeat(b, n) + m[dest + n..]
  }

  /** A register holding k copies of a byte. */
  function Repeat(b: Byte, k: nat): (r: seq<Byte>)
    ensures |r| == k
  {
    seq(k, _ => b)
  }

  class Machine {
    const mem: array<Byte>
    ghost const readLo: nat
    ghost const readHi: nat
    ghost const writeLo: nat
    ghost const writeHi: nat
    /** The register dczid_el0: bit 4 prohibits DC ZVA, bits 0..3 are log2 of its block size in words. */
    const dczid: nat

    ghost predicate Valid() {
      readHi <= mem.Length && writeHi <= mem.Length
    }

    ghost function Bytes(): (m: seq<Byte>)
      reads mem
      ensures |m| == mem.Length
    {
      mem[..]
    }

    constructor (memory: array<Byte>, ghost rlo: nat, ghost rhi: nat, ghost wlo: nat, ghost whi: nat, zid: nat)
      requires rhi <= memory.Length && whi <= memory.Length
      ensures Valid() && mem == memory && readLo == rlo && readHi == rhi && writeLo == wlo && writeHi == whi
      ensures dczid == zid
    {
      mem, readLo, readHi, writeLo, writeHi, dczid := memory, rlo, rhi, wlo, whi, zid;
    }

    /** ldr, ldrb and ldp: k consecutive bytes. */
    method Load(a: int, k: nat) returns (r: seq<Byte>)
      requires Valid() && readLo <= a && a + k <= readHi
      ensures Reads(r, Bytes(), a, k) && |r| == k
    {
      r := mem[a..a + k];
    }

    /** str, strb, strh and stp. */
    method Store(a: int, r: seq<Byte>)
      requires Valid() && writeLo <= a && a + |r| <= writeHi
      modifies mem
      ensures Writes(Bytes(), old(Bytes()), a, r)
    {
      for i := 0 to |r|
        invariant Bytes() == old(Bytes()[..a]) + r[..i] + old(Bytes()[a + i..])
      {
        mem[a + i] := r[i];
      }
    }

    /** The block size in bytes that DC ZVA zeroes. */
    function ZvaBlock(): nat {
      4 * Pow2(dczid % 16)
    }

    /** dc zva: zeroes the naturally aligned block around a; the instruction traps when bit 4 prohibits it. */
    method DcZva(a: nat)
      requires Valid() && (dczid / 16) % 2 == 0
      requires writeLo <= a - a % ZvaBlock() && a - a % ZvaBlock() + ZvaBlock() <= writeHi
      modifies mem
      ensures Writes(Bytes(), old(Bytes()), a - a % ZvaBlock(), Repeat(0, ZvaBlock()))
    {
      hide Writes;
      Store(a - a % ZvaBlock(), Repeat(0, ZvaBlock()));
    }

    /** One turn of either byte loop. */
    method CopyByte(d: nat, s: nat)
      requires Valid() && readLo <= s < readHi && writeLo <= d < writeHi
      modifies mem
      ensures Writes(Bytes(), old(Bytes()), d, [old(Bytes())[s]])
    {
      mem[d] := mem[s];
      assert Bytes() == old(Bytes())[..d] + [old(Bytes())[s]] + old(Bytes())[d + 1..];
    }

    /** The byte loop of memcpy, and of memmove when dest lies below src. */
    method CopyForward(dest: nat, src: nat, n: nat)
      requires Valid() && readLo <= src && src + n <= readHi && writeLo <= dest && dest + n <= writeHi
      requires dest <= src || src + n <= dest
      modifies mem
      ensures Copied(Bytes(), old(Bytes()), dest, src, n)
    {
      hide Patched, Writes;
      CopiedNothing(Bytes(), dest, src);
      var i := 0;
      while i < n
        invariant 0 <= i <= n
        invariant Copied(Bytes(), old(Bytes()), dest, src, i)
      {
        ghost var was := Bytes();
        CopyByte(dest + i, src + i);
        ForwardByte(was, Bytes(), old(Bytes()), dest, src, i);
        i := i + 1;
      }
    }

    method CopyBackward(dest: nat, src: nat, n: nat)
      requires Valid() && readLo <= src && src + n <= readHi && writeLo <= dest && dest + n <= writeHi
      requires src <= dest
      modifies mem
      ensures Copied(Bytes(), old(Bytes()), dest, src, n)
    {
      hide Patched, Writes;
      CopiedNothing(Bytes(), dest + n, src + n);
      var i := n;
      while 0 < i
        invariant 0 <= i <= n
        invariant Copied(Bytes(), old(Bytes()), dest + i, src + i, n - i)
      {
        i := i - 1;
        ghost var was := Bytes();
        CopyByte(dest + i, src + i);
        BackwardByte(was, Bytes(), old(Bytes()), dest + i, src + i, n - i);
      }
    }

    /** memmove: the direction is chosen so that no source byte is overwritten before it is read. */
    method Memmove(dest: nat, src: nat, n: nat) returns (r: nat)
      requires Valid() && readLo <= src && src + n <= readHi && writeLo <= dest && dest + n <= writeHi
      modifies mem
      ensures Copied(Bytes(), old(Bytes()), dest, src, n) && r == dest
    {
      if dest < src {
        CopyForward(dest, src, n);
      } else if src < dest {
        CopyBackward(dest, src, n);
      }
      r := dest;
    }

    /** The byte loop of memset; c is a C int of which the low byte is used. */
    method FillBytes(dest: nat, c: int, n: nat) returns (r: nat)
      requires Valid() && writeLo <= dest && dest + n <= writeHi
      modifies mem
      ensures Filled(Bytes(), old(Bytes()), dest, c % 256, n) && r == dest
    {
      hide Filled, Repeat;
      FilledNothing(Bytes(), dest, c % 256);
      var i := 0;
      while i < n
        invariant 0 <= i <= n
        invariant Filled(Bytes(), old(Bytes()), dest, c % 256, i)
      {
        ghost var was := Bytes();
        mem[dest + i] := c % 256;
        FilledByte(was, Bytes(), old(Bytes()), dest, c % 256, i);
        i := i + 1;
      }
      r := dest;
    }
  }

  // ----- Copies assembled from overlapping pieces -----

  lemma {:induction false} CopiedNothing(m: seq<Byte>, dest: nat, src: nat)
    requires dest <= |m| && src <= |m|
    ensures Copied(m, m, dest, src, 0)
  {
  }

  /** Storing source bytes j..j+w over a patch of k bytes, leaving no gap, patches up to the further end. */
  lemma {:induction false} PatchedStore(m': seq<Byte>, m'': seq<Byte>, base: seq<Byte>, m: seq<Byte>,
                                        dest: nat, src: nat, k: nat, j: nat, w: nat, r: seq<Byte>)
    requires Patched(m', base, m, dest, src, k) && j <= k
    requires Reads(r, m, src + j, w) && Writes(m'', m', dest + j, r)
    ensures Patched(m'', base, m, dest, src, Max(k, j + w))
  {
    var n := Max(k, j + w);
    var want := base[..dest] + m[src..src + n] + base[dest + n..];
    assert |m''| == |want|;
    forall i | 0 <= i < |m''|
      ensures m''[i] == want[i]
    {
    }
  }

  lemma {:induction false} FilledNothing(m: seq<Byte>, dest: nat, b: Byte)
    requires dest <= |m|
    ensures Filled(m, m, dest, b, 0)
  {
  }

  lemma {:induction false} FilledByte(m': seq<Byte>, m'': seq<Byte>, m: seq<Byte>, dest: nat, b: Byte, i: nat)
    requires Filled(m', m, dest, b, i) && dest + i < |m| == |m'| && m'' == m'[dest + i := b]
    ensures Filled(m'', m, dest, b, i + 1)
  {
  }

  /** One more byte behind a copy. */
  lemma {:induction false} ForwardByte(m': seq<Byte>, m'': seq<Byte>, m: seq<Byte>, dest: nat, src: nat, i: nat)
    requires Copied(m', m, dest, src, i) && dest + i < |m| && src + i < |m| == |m'|
    requires dest <= src || src + i < dest
    requires Writes(m'', m', dest + i, [m'[src + i]])
    ensures Copied(m'', m, dest, src, i + 1)
  {
    var r := [m'[src + i]];
    assert Reads(r, m', src + i, 1);
    CopiedLoad(m', m, dest, src, i, src + i, 1, r);
    PatchedStore(m', m'', m, m, dest, src, i, i, 1, r);
  }

  /** One more byte in front of a copy. */
  lemma {:induction false} BackwardByte(m': seq<Byte>, m'': seq<Byte>, m: seq<Byte>, dest: nat, src: nat, n: nat)
    requires 0 < n && src <= dest && Copied(m', m, dest + 1, src + 1, n - 1) && |m'| == |m|
    requires Writes(m'', m', dest, [m'[src]])
    ensures Copied(m'', m, dest, src, n)
  {
    var want := m[..dest] + m[src..src + n] + m[dest + n..];
    assert |m''| == |want|;
    forall i | 0 <= i < |m''|
      ensures m''[i] == want[i]
    {
    }
  }

  /** Bytes outside the copied range still read as before. */
  lemma {:induction false} CopiedLoad(m': seq<Byte>, m: seq<Byte>, dest: nat, src: nat, k: nat, a: nat, w: nat, r: seq<Byte>)
    requires Copied(m', m, dest, src, k) && Reads(r, m', a, w)
    requires dest + k <= a || a + w <= dest
    ensures Reads(r, m, a, w)
  {
  }

  // ----- Byte by byte -----

  /** A copy, byte by byte. */
  lemma {:induction false} CopiedByByte(m': seq<Byte>, m: seq<Byte>, dest: nat, src: nat, n: nat)
    requires dest + n <= |m| && src + n <= |m|
    ensures Copied(m', m, dest, src, n) <==>
            (|m'| == |m| &&
             forall i {:trigger m'[i]} :: 0 <= i < |m| ==> m'[i] == if dest <= i < dest + n then m[src + (i - dest)] else m[i])
  {
    var want := m[..dest] + m[src..src + n] + m[dest + n..];
    assert forall i {:trigger want[i]} :: 0 <= i < |m| ==> want[i] == if dest <= i < dest + n then m[src + (i - dest)] else m[i];
    if |m'| == |m| &&
       forall i {:trigger m'[i]} :: 0 <= i < |m| ==> m'[i] == if dest <= i < dest + n then m[src + (i - dest)] else m[i]
    {
      forall i | 0 <= i < |m|
        ensures m'[i] == want[i]
      {
      }
      assert m' == want;
    }
  }

  /** A fill, byte by byte. */
  lemma {:induction false} FilledByByte(m': seq<Byte>, m: seq<Byte>, dest: nat, b: Byte, n: nat)
    requires dest + n <= |m|
    ensures Filled(m', m, dest, b, n) <==>
            (|m'| == |m| && forall i {:trigger m'[i]} :: 0 <= i < |m| ==> m'[i] == if dest <= i < dest + n then b else m[i])
  {
    var want := m[..dest] + Repeat(b, n) + m[dest + n..];
    assert forall i {:trigger want[i]} :: 0 <= i < |m| ==> want[i] == if dest <= i < dest + n then b else m[i];
    if |m'| == |m| && forall i {:trigger m'[i]} :: 0 <= i < |m| ==> m'[i] == want[i] {
      assert m' == want;
    }
  }
}
