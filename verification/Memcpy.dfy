/** The AArch64 memcpy: loads and stores in the order of the listing, registers as byte sequences. */
module Memcpy {
  import opened Memory

  /** The machine lets memcpy read exactly its source and write exactly its destination. */
  ghost predicate Granted(cpu: Machine, dstin: nat, src: nat, count: nat) {
    && cpu.Valid()
    && cpu.readLo == src && cpu.readHi == src + count
    && cpu.writeLo == dstin && cpu.writeHi == dstin + count
  }

  /** A store of source bytes j..j+w on top of the first k bytes of a patch. */
  method Put(cpu: Machine, a: int, r: seq<Byte>, ghost base: seq<Byte>, ghost m: seq<Byte>,
             ghost dest: nat, ghost src: nat, ghost k: nat, ghost j: nat, ghost w: nat)
    requires cpu.Valid() && cpu.writeLo <= a && a + |r| <= cpu.writeHi
    requires a == dest + j && j <= k && Reads(r, m, src + j, w) && Patched(cpu.Bytes(), base, m, dest, src, k)
    modifies cpu.mem
    ensures Patched(cpu.Bytes(), base, m, dest, src, Max(k, j + w))
  {
    hide Reads, Writes, Patched;
    ghost var was := cpu.Bytes();
    cpu.Store(a, r);
    PatchedStore(was, cpu.Bytes(), base, m, dest, src, k, j, w, r);
  }

  /** Two words of w bytes, one from each end: the 16..32, 8..15 and 4..7 byte cases. */
  method CopyEnds(cpu: Machine, dstin: nat, src: nat, count: nat, w: nat)
    requires Granted(cpu, dstin, src, count) && w <= count <= 2 * w
    modifies cpu.mem
    ensures Copied(cpu.Bytes(), old(cpu.Bytes()), dstin, src, count)
  {
    hide Reads, Patched;
    ghost var m := cpu.Bytes();
    var srcend, dstend := src + count, dstin + count;
    CopiedNothing(m, dstin, src);
    var a := cpu.Load(src, w);
    var d := cpu.Load(srcend - w, w);
    Put(cpu, dstin, a, m, m, dstin, src, 0, 0, w);
    Put(cpu, dstend - w, d, m, m, dstin, src, w, count - w, w);
  }

  /** 1..3 bytes, branchless: the first, the middle and the last. */
  method CopyThree(cpu: Machine, dstin: nat, src: nat, count: nat)
    requires Granted(cpu, dstin, src, count) && 1 <= count <= 3
    modifies cpu.mem
    ensures Copied(cpu.Bytes(), old(cpu.Bytes()), dstin, src, count)
  {
    hide Reads, Patched;
    ghost var m := cpu.Bytes();
    var srcend, dstend := src + count, dstin + count;
    CopiedNothing(m, dstin, src);
    var tmp1 := count / 2;
    var a := cpu.Load(src, 1);
    var c := cpu.Load(srcend - 1, 1);
    var b := cpu.Load(src + tmp1, 1);
    Put(cpu, dstin, a, m, m, dstin, src, 0, 0, 1);
    Put(cpu, dstin + tmp1, b, m, m, dstin, src, 1, tmp1, 1);
    Put(cpu, dstend - 1, c, m, m, dstin, src, tmp1 + 1, count - 1, 1);
  }

  /** 33..64 bytes: all loads, then all stores. */
  method Copy64(cpu: Machine, dstin: nat, src: nat, count: nat)
    requires Granted(cpu, dstin, src, count) && 32 < count <= 64
    modifies cpu.mem
    ensures Copied(cpu.Bytes(), old(cpu.Bytes()), dstin, src, count)
  {
    hide Reads, Patched;
    ghost var m := cpu.Bytes();
    var srcend, dstend := src + count, dstin + count;
    CopiedNothing(m, dstin, src);
    var a := cpu.Load(src, 16);
    var b := cpu.Load(src + 16, 16);
    var c := cpu.Load(srcend - 32, 16);
    var d := cpu.Load(srcend - 16, 16);
    Put(cpu, dstin, a, m, m, dstin, src, 0, 0, 16);
    Put(cpu, dstin + 16, b, m, m, dstin, src, 16, 16, 16);
    Put(cpu, dstend - 32, c, m, m, dstin, src, 32, count - 32, 16);
    Put(cpu, dstend - 16, d, m, m, dstin, src, Max(32, count - 16), count - 16, 16);
  }

  /** 65..128 bytes: all loads, then all stores, those of the last 64 to 32 bytes first. */
  method Copy128(cpu: Machine, dstin: nat, src: nat, count: nat)
    requires Granted(cpu, dstin, src, count) && 64 < count <= 128
    modifies cpu.mem
    ensures Copied(cpu.Bytes(), old(cpu.Bytes()), dstin, src, count)
  {
    hide Reads, Patched;
    ghost var m := cpu.Bytes();
    var srcend, dstend := src + count, dstin + count;
    var a := cpu.Load(src, 16);
    var b := cpu.Load(src + 16, 16);
    var c := cpu.Load(srcend - 32, 16);
    var d := cpu.Load(srcend - 16, 16);
    var e := cpu.Load(src + 32, 16);
    var f := cpu.Load(src + 48, 16);
    if 96 < count {
      CopyBeforeLast32(cpu, dstend, srcend, dstin, src, count);
    } else {
      CopiedNothing(m, dstend - 64, srcend - 64);
    }
    StoreHead(cpu, dstin, a, b, e, f, m, src, count);
    ghost var k := Max(64, if 96 < count then count - 32 else 0);
    Put(cpu, dstend - 32, c, m, m, dstin, src, k, count - 32, 16);
    Put(cpu, dstend - 16, d, m, m, dstin, src, Max(k, count - 16), count - 16, 16);
  }

  /** The 32 bytes before the last 32, when there are more than 96. */
  method CopyBeforeLast32(cpu: Machine, dstend: nat, srcend: nat, ghost dstin: nat, ghost src: nat, ghost count: nat)
    requires Granted(cpu, dstin, src, count) && 64 < count && dstend == dstin + count && srcend == src + count
    modifies cpu.mem
    ensures Copied(cpu.Bytes(), old(cpu.Bytes()), dstend - 64, srcend - 64, 32)
  {
    hide Reads, Patched;
    ghost var m := cpu.Bytes();
    CopiedNothing(m, dstend - 64, srcend - 64);
    var g := cpu.Load(srcend - 64, 16);
    var h := cpu.Load(srcend - 48, 16);
    Put(cpu, dstend - 64, g, m, m, dstend - 64, srcend - 64, 0, 0, 16);
    Put(cpu, dstend - 48, h, m, m, dstend - 64, srcend - 64, 16, 16, 16);
  }

  /** The four stores of .Lcopy96, over the tail that may already be in place. */
  method StoreHead(cpu: Machine, dstin: nat, a: seq<Byte>, b: seq<Byte>, e: seq<Byte>, f: seq<Byte>,
                   ghost m: seq<Byte>, ghost src: nat, ghost count: nat)
    requires Granted(cpu, dstin, src, count) && 64 < count <= 128 && |m| == cpu.mem.Length
    requires Reads(a, m, src, 16) && Reads(b, m, src + 16, 16) && Reads(e, m, src + 32, 16) && Reads(f, m, src + 48, 16)
    requires |a| == |b| == |e| == |f| == 16
    requires Copied(cpu.Bytes(), m, dstin + count - 64, src + count - 64, if 96 < count then 32 else 0)
    modifies cpu.mem
    ensures Copied(cpu.Bytes(), m, dstin, src, Max(64, if 96 < count then count - 32 else 0))
  {
    hide Reads, Patched;
    ghost var t := cpu.Bytes();
    PatchedNothing(t, m, dstin, src);
    Put(cpu, dstin, a, t, m, dstin, src, 0, 0, 16);
    Put(cpu, dstin + 16, b, t, m, dstin, src, 16, 16, 16);
    Put(cpu, dstin + 32, e, t, m, dstin, src, 32, 32, 16);
    Put(cpu, dstin + 48, f, t, m, dstin, src, 48, 48, 16);
    HeadMeetsTail(cpu.Bytes(), m, t, dstin, src, count, if 96 < count then 32 else 0);
  }

  lemma {:induction false} PatchedNothing(t: seq<Byte>, m: seq<Byte>, dest: nat, src: nat)
    requires |t| == |m| && dest <= |m| && src <= |m|
    ensures Patched(t, t, m, dest, src, 0)
  {
  }

  /** 64 bytes from the front meet the 32 stored before them near the end. */
  lemma {:induction false} HeadMeetsTail(m': seq<Byte>, m: seq<Byte>, t: seq<Byte>, dest: nat, src: nat, n: nat, tail: nat)
    requires 64 < n <= 128 && tail == (if 96 < n then 32 else 0)
    requires src + n <= |m| && dest + n <= |m|
    requires Copied(t, m, dest + n - 64, src + n - 64, tail)
    requires Patched(m', t, m, dest, src, 64)
    ensures Copied(m', m, dest, src, Max(64, if 96 < n then n - 32 else 0))
  {
    var k := Max(64, if 96 < n then n - 32 else 0);
    var want := m[..dest] + m[src..src + k] + m[dest + k..];
    assert |m'| == |want|;
    forall i | 0 <= i < |m'|
      ensures m'[i] == want[i]
    {
    }
  }

  // ----- More than 128 bytes -----

  /** What the long routine is about, with memory m as it was before. */
  datatype Job = Job(m: seq<Byte>, dest: nat, src: nat, n: nat)
  {
    ghost predicate Valid() {
      128 < n && dest + n <= |m| && src + n <= |m|
    }

    /** How far dest lies above src. */
    function Distance(): int {
      dest - src
    }

    function Misalignment(): nat {
      dest % 16
    }

    /** The bytes of the source not yet loaded by the loop when it ends, plus 16 (17..80). */
    function Rest(): nat {
      17 + (n + Misalignment() - 81) % 64
    }

    /** No store up to the end of the loop reaches a source byte that is still to be loaded. */
    predicate LoopClean() {
      Distance() <= 0 || n <= Distance() || Distance() <= 16 - Misalignment()
    }

    /** No store before one of the last four loads reaches a byte of the last 64. */
    predicate TailClean() {
      Distance() <= 0 || n <= Distance() || Distance() <= Rest() - 16
    }

    predicate Clean() {
      LoopClean() && TailClean()
    }

    /** When not clean: a byte that comes out wrong, and where its value was taken from instead. */
    function Spoiled(): nat
      requires 128 < n && !Clean()
    {
      if LoopClean() then n - 64 else Max(Distance(), 32 - Misalignment())
    }

    ghost function Stray(): Byte
      requires Valid() && !Clean()
    {
      m[src + Spoiled() - Distance()]
    }
  }

  /** Memory when the pipelined loop has stored bytes up to k (and the 16 bytes of the head). */
  ghost predicate MemOk(job: Job, cur: seq<Byte>, k: nat)
    requires job.Valid()
  {
    |cur| == |job.m| && k <= job.n &&
    if job.LoopClean() then Copied(cur, job.m, job.dest, job.src, Max(k, 16))
    else
      && cur[job.src + job.Spoiled()] == job.Stray()
      && (job.Spoiled() < k ==> cur[job.dest + job.Spoiled()] == job.Stray())
  }

  /** A register of the loop holding bytes k..k+16 of the source. */
  ghost predicate RegOk(job: Job, r: seq<Byte>, k: nat)
    requires job.Valid()
  {
    |r| == 16 && k + 16 <= job.n &&
    if job.LoopClean() then Reads(r, job.m, job.src + k, 16)
    else Tracks(job, r, k)
  }

  /** When byte Spoiled() or the byte its value strayed from is in the register, it has the stray value. */
  ghost predicate Tracks(job: Job, r: seq<Byte>, k: nat)
    requires job.Valid() && !job.LoopClean() && |r| == 16
  {
    var q, p := job.Spoiled(), job.Spoiled() - job.Distance();
    (k <= q < k + 16 ==> r[q - k] == job.Stray()) && (k <= p < k + 16 ==> r[p - k] == job.Stray())
  }

  lemma {:induction false} StoreKeepsMemOk(job: Job, cur: seq<Byte>, cur': seq<Byte>, k: nat, r: seq<Byte>)
    requires job.Valid() && 16 - job.Misalignment() <= k
    requires MemOk(job, cur, k) && RegOk(job, r, k) && Writes(cur', cur, job.dest + k, r)
    ensures MemOk(job, cur', k + 16)
  {
    if job.LoopClean() {
      hide Patched, Reads, Writes;
      PatchedStore(cur, cur', job.m, job.m, job.dest, job.src, Max(k, 16), k, 16, r);
    }
  }

  lemma {:induction false} LoadGivesRegOk(job: Job, cur: seq<Byte>, k: nat, o: nat, r: seq<Byte>)
    requires job.Valid() && MemOk(job, cur, k) && Reads(r, cur, job.src + o, 16) && o + 16 <= job.n
    requires k + 48 <= o && 16 <= k
    ensures RegOk(job, r, o)
  {
    if job.LoopClean() {
      hide Patched, Reads;
      CopiedLoad(cur, job.m, job.dest, job.src, Max(k, 16), job.src + o, 16, r);
    }
  }

  /** stp X, [dst, o]; ldp X, [src, o]: one quarter of the loop. */
  method Turn(cpu: Machine, a: int, r: seq<Byte>, b: int, ghost job: Job, ghost k: nat) returns (r': seq<Byte>)
    requires Granted(cpu, job.dest, job.src, job.n) && job.Valid() && |job.m| == cpu.mem.Length
    requires a == job.dest + k && b == job.src + k + 64 && k + 80 <= job.n && 16 - job.Misalignment() <= k
    requires MemOk(job, cpu.Bytes(), k) && RegOk(job, r, k) && |r| == 16
    modifies cpu.mem
    ensures MemOk(job, cpu.Bytes(), k + 16) && RegOk(job, r', k + 64) && |r'| == 16
  {
    hide MemOk, RegOk, Writes, Reads;
    ghost var was := cpu.Bytes();
    cpu.Store(a, r);
    StoreKeepsMemOk(job, was, cpu.Bytes(), k, r);
    r' := cpu.Load(b, 16);
    LoadGivesRegOk(job, cpu.Bytes(), k + 16, k + 64, r');
  }

  /** The head has stored 16 bytes; the loop will store again from the aligned address on. */
  lemma {:induction false} HeadMemOk(job: Job, cur: seq<Byte>, r: seq<Byte>)
    requires job.Valid() && Reads(r, job.m, job.src, 16) && Writes(cur, job.m, job.dest, r)
    ensures MemOk(job, cur, 16 - job.Misalignment())
  {
    if job.LoopClean() {
      CopiedNothing(job.m, job.dest, job.src);
      PatchedStore(job.m, cur, job.m, job.m, job.dest, job.src, 0, 0, 16, r);
    }
  }

  /** The first register was loaded before the first store. */
  lemma {:induction false} EarlyRegOk(job: Job, r: seq<Byte>)
    requires job.Valid() && Reads(r, job.m, job.src + 16 - job.Misalignment(), 16)
    ensures RegOk(job, r, 16 - job.Misalignment())
  {
  }

  /** The other three were loaded after it. */
  lemma {:induction false} HeadRegOk(job: Job, cur: seq<Byte>, o: nat, r: seq<Byte>)
    requires job.Valid() && MemOk(job, cur, 16 - job.Misalignment()) && Reads(r, cur, job.src + o, 16) && o + 16 <= job.n
    requires 32 - job.Misalignment() <= o
    ensures RegOk(job, r, o)
  {
    if job.LoopClean() {
      hide Patched, Reads;
      CopiedLoad(cur, job.m, job.dest, job.src, 16, job.src + o, 16, r);
    }
  }

  /** Three of the loop's registers, loaded after the 16 bytes of the head are in place. */
  method HeadLoads(cpu: Machine, ghost job: Job, src: int) returns (b: seq<Byte>, c: seq<Byte>, d: seq<Byte>)
    requires Granted(cpu, job.dest, job.src, job.n) && job.Valid() && |job.m| == cpu.mem.Length
    requires src == job.src - job.Misalignment() && MemOk(job, cpu.Bytes(), 16 - job.Misalignment())
    ensures |b| == |c| == |d| == 16
    ensures var k := 16 - job.Misalignment();
            RegOk(job, b, k + 16) && RegOk(job, c, k + 32) && RegOk(job, d, k + 48)
  {
    hide MemOk, RegOk, Reads;
    ghost var k := 16 - job.Misalignment();
    b := cpu.Load(src + 32, 16);
    HeadRegOk(job, cpu.Bytes(), k + 16, b);
    c := cpu.Load(src + 48, 16);
    HeadRegOk(job, cpu.Bytes(), k + 32, c);
    d := cpu.Load(src + 64, 16);
    HeadRegOk(job, cpu.Bytes(), k + 48, d);
  }

  /** From .Lcopy_long to the loop. */
  method LongHead(cpu: Machine, ghost job: Job, dstin: nat, src0: nat)
    returns (dst: int, src: int, a: seq<Byte>, b: seq<Byte>, c: seq<Byte>, d: seq<Byte>)
    requires Granted(cpu, job.dest, job.src, job.n) && job.Valid() && job.m == cpu.Bytes()
    requires dstin == job.dest && src0 == job.src
    modifies cpu.mem
    ensures dst == dstin - dstin % 16 && src == src0 - dstin % 16 + 64
    ensures |a| == |b| == |c| == |d| == 16
    ensures var k := 16 - job.Misalignment();
            MemOk(job, cpu.Bytes(), k) && RegOk(job, a, k) && RegOk(job, b, k + 16) &&
            RegOk(job, c, k + 32) && RegOk(job, d, k + 48)
  {
    hide MemOk, RegOk, Reads, Writes;
    d := cpu.Load(src0, 16);
    var tmp1 := dstin % 16;
    dst := dstin - tmp1;
    src := src0 - tmp1;
    a := cpu.Load(src + 16, 16);
    EarlyRegOk(job, a);
    cpu.Store(dstin, d);
    HeadMemOk(job, cpu.Bytes(), d);
    b, c, d := HeadLoads(cpu, job, src);
    src := src + 64;
  }

  // ----- The last 64 bytes -----

  /** A register with the source bytes o..o+16 of the tail. */
  ghost predicate TailReg(job: Job, r: seq<Byte>, o: nat)
    requires job.Valid()
  {
    |r| == 16 && o + 16 <= job.n &&
    if job.Clean() then Reads(r, job.m, job.src + o, 16)
    else (o <= job.Spoiled() < o + 16 && (job.LoopClean() ==> o == job.n - 64)) ==> r[job.Spoiled() - o] == job.Stray()
  }

  /** Memory after the tail stores up to w; of an unclean job only the spoiled byte is claimed. */
  ghost predicate TailMem(job: Job, cur: seq<Byte>, w: nat)
    requires job.Valid()
  {
    |cur| == |job.m| && w <= job.n &&
    if job.Clean() then Copied(cur, job.m, job.dest, job.src, w)
    else job.Spoiled() < w ==> cur[job.dest + job.Spoiled()] == job.Stray()
  }

  lemma {:induction false} TailLoad(job: Job, cur: seq<Byte>, k: nat, o: nat, r: seq<Byte>)
    requires job.Valid() && MemOk(job, cur, k) && Reads(r, cur, job.src + o, 16) && o + 16 <= job.n
    requires k + job.Rest() - 16 <= o && 16 - job.Misalignment() <= k
    requires k < 16 ==> 32 <= o
    requires job.n - 48 <= o || (o == job.n - 64 && k == job.n - job.Rest() - 48)
    ensures TailReg(job, r, o)
  {
    if job.Clean() {
      hide Patched, Reads;
      CopiedLoad(cur, job.m, job.dest, job.src, Max(k, 16), job.src + o, 16, r);
    }
  }

  lemma {:induction false} TailFirst(job: Job, cur: seq<Byte>, cur': seq<Byte>, w: nat, r: seq<Byte>)
    requires job.Valid() && job.n - 64 <= w && 16 <= w && MemOk(job, cur, w) && w <= job.n - 1
    requires TailReg(job, r, job.n - 64) && Writes(cur', cur, job.dest + job.n - 64, r)
    ensures TailMem(job, cur', Max(w, job.n - 48))
  {
    if job.Clean() {
      hide Patched, Reads, Writes;
      PatchedStore(cur, cur', job.m, job.m, job.dest, job.src, w, job.n - 64, 16, r);
    }
  }

  lemma {:induction false} TailStore(job: Job, cur: seq<Byte>, cur': seq<Byte>, w: nat, o: nat, r: seq<Byte>)
    requires job.Valid() && job.n - 48 <= o <= w && TailMem(job, cur, w)
    requires TailReg(job, r, o) && Writes(cur', cur, job.dest + o, r)
    ensures TailMem(job, cur', Max(w, o + 16))
  {
    if job.Clean() {
      hide Patched, Reads, Writes;
      PatchedStore(cur, cur', job.m, job.m, job.dest, job.src, w, o, 16, r);
    }
  }

  /** stp X, [dst, o]; ldp X, [srcend, o']. */
  method TailTurn(cpu: Machine, a: int, r: seq<Byte>, b: int, ghost job: Job, ghost k: nat, ghost o: nat)
    returns (r': seq<Byte>)
    requires Granted(cpu, job.dest, job.src, job.n) && job.Valid() && |job.m| == cpu.mem.Length
    requires a == job.dest + k && b == job.src + o && job.n - 48 <= o && o + 16 <= job.n
    requires 16 - job.Misalignment() <= k && k + job.Rest() <= o
    requires MemOk(job, cpu.Bytes(), k) && RegOk(job, r, k) && |r| == 16 && k + 16 <= job.n
    modifies cpu.mem
    ensures MemOk(job, cpu.Bytes(), k + 16) && TailReg(job, r', o) && |r'| == 16
  {
    hide MemOk, RegOk, Writes, Reads, TailReg;
    ghost var was := cpu.Bytes();
    cpu.Store(a, r);
    StoreKeepsMemOk(job, was, cpu.Bytes(), k, r);
    r' := cpu.Load(b, 16);
    TailLoad(job, cpu.Bytes(), k + 16, o, r');
  }

  method TailPut(cpu: Machine, a: int, r: seq<Byte>, ghost job: Job, ghost w: nat, ghost o: nat)
    requires Granted(cpu, job.dest, job.src, job.n) && job.Valid() && |job.m| == cpu.mem.Length
    requires a == job.dest + o && job.n - 48 <= o <= w && o + 16 <= job.n
    requires TailMem(job, cpu.Bytes(), w) && TailReg(job, r, o) && |r| == 16
    modifies cpu.mem
    ensures TailMem(job, cpu.Bytes(), Max(w, o + 16))
  {
    hide TailMem, Writes, TailReg;
    ghost var was := cpu.Bytes();
    cpu.Store(a, r);
    TailStore(job, was, cpu.Bytes(), w, o, r);
  }

  /** The last stores of the loop, .Lcopy64_from_end, interleaved with the loads of the last 64 bytes. */
  method LongTail(cpu: Machine, ghost job: Job, dst: int, srcend: nat, dstend: nat,
                  a0: seq<Byte>, b0: seq<Byte>, c0: seq<Byte>, d: seq<Byte>)
    requires Granted(cpu, job.dest, job.src, job.n) && job.Valid() && |job.m| == cpu.mem.Length
    requires srcend == job.src + job.n && dstend == job.dest + job.n
    requires dst + 16 == job.dest + job.n - job.Rest() - 48
    requires 16 - job.Misalignment() <= job.n - job.Rest() - 48
    requires |a0| == |b0| == |c0| == |d| == 16
    requires var k := job.n - job.Rest() - 48;
             MemOk(job, cpu.Bytes(), k) && RegOk(job, a0, k) && RegOk(job, b0, k + 16) &&
             RegOk(job, c0, k + 32) && RegOk(job, d, k + 48)
    modifies cpu.mem
    ensures TailMem(job, cpu.Bytes(), job.n)
  {
    hide MemOk, RegOk, Writes, Reads, TailReg, TailMem;
    ghost var k := job.n - job.Rest() - 48;
    var e := cpu.Load(srcend - 64, 16);
    TailLoad(job, cpu.Bytes(), k, job.n - 64, e);
    var a := TailTurn(cpu, dst + 16, a0, srcend - 48, job, k, job.n - 48);
    var b := TailTurn(cpu, dst + 32, b0, srcend - 32, job, k + 16, job.n - 32);
    var c := TailTurn(cpu, dst + 48, c0, srcend - 16, job, k + 32, job.n - 16);
    ghost var was := cpu.Bytes();
    cpu.Store(dst + 64, d);
    StoreKeepsMemOk(job, was, cpu.Bytes(), k + 48, d);
    LongTailStores(cpu, job, dstend, e, a, b, c);
  }

  /** The four stores of the last 64 bytes. */
  method LongTailStores(cpu: Machine, ghost job: Job, dstend: nat, e: seq<Byte>, a: seq<Byte>, b: seq<Byte>, c: seq<Byte>)
    requires Granted(cpu, job.dest, job.src, job.n) && job.Valid() && |job.m| == cpu.mem.Length
    requires dstend == job.dest + job.n && MemOk(job, cpu.Bytes(), job.n - job.Rest() + 16)
    requires |e| == |a| == |b| == |c| == 16
    requires TailReg(job, e, job.n - 64) && TailReg(job, a, job.n - 48)
    requires TailReg(job, b, job.n - 32) && TailReg(job, c, job.n - 16)
    modifies cpu.mem
    ensures TailMem(job, cpu.Bytes(), job.n)
  {
    hide MemOk, Writes, TailReg, TailMem;
    ghost var w, was := job.n - job.Rest() + 16, cpu.Bytes();
    cpu.Store(dstend - 64, e);
    TailFirst(job, was, cpu.Bytes(), w, e);
    TailPut(cpu, dstend - 48, a, job, Max(w, job.n - 48), job.n - 48);
    TailPut(cpu, dstend - 32, b, job, Max(w, job.n - 32), job.n - 32);
    TailPut(cpu, dstend - 16, c, job, Max(w, job.n - 16), job.n - 16);
  }

  /** .Lcopy_long: more than 128 bytes. */
  method CopyLong(cpu: Machine, dstin: nat, src0: nat, count0: nat)
    requires Granted(cpu, dstin, src0, count0) && 128 < count0
    modifies cpu.mem
    ensures TailMem(Job(old(cpu.Bytes()), dstin, src0, count0), cpu.Bytes(), count0)
  {
    hide MemOk, RegOk, TailMem;
    ghost var job := Job(cpu.Bytes(), dstin, src0, count0);
    var srcend, dstend := src0 + count0, dstin + count0;
    var dst, src, a, b, c, d := LongHead(cpu, job, dstin, src0);
    var count := count0 + dstin % 16;
    var higher := 144 < count;
    count := count - 144;
    ghost var k := 16 - job.Misalignment();
    while higher
      invariant k == dst + 16 - dstin && src - src0 == k + 48 && 16 - job.Misalignment() <= k
      invariant count == srcend - src - 80 && 17 <= srcend - src && (k + job.Misalignment()) % 64 == 16
      invariant higher <==> 0 < count
      invariant |a| == |b| == |c| == |d| == 16
      invariant MemOk(job, cpu.Bytes(), k) && RegOk(job, a, k) && RegOk(job, b, k + 16)
      invariant RegOk(job, c, k + 32) && RegOk(job, d, k + 48)
      decreases count
    {
      a := Turn(cpu, dst + 16, a, src + 16, job, k);
      b := Turn(cpu, dst + 32, b, src + 32, job, k + 16);
      c := Turn(cpu, dst + 48, c, src + 48, job, k + 32);
      d := Turn(cpu, dst + 64, d, src + 64, job, k + 48);
      dst, src := dst + 64, src + 64;
      higher := 64 < count;
      count := count - 64;
      k := k + 64;
    }
    RestUnique(job, k);
    LongTail(cpu, job, dst, srcend, dstend, a, b, c, d);
  }

  lemma {:induction false} RestUnique(job: Job, k: nat)
    requires job.Valid() && (k + job.Misalignment()) % 64 == 16 && 17 <= job.n - k - 48 <= 80
    ensures job.n - k - 48 == job.Rest()
  {
  }

  // ----- The whole routine -----

  /** The overlaps memcpy tolerates; disjoint ranges are the case the caller owes. */
  predicate Tolerates(dest: nat, src: nat, n: nat) {
    n <= 128 || Job([], dest, src, n).Clean()
  }

  method Memcpy(cpu: Machine, dstin: nat, src: nat, count: nat) returns (x0: nat)
    requires Granted(cpu, dstin, src, count)
    modifies cpu.mem
    ensures x0 == dstin
    ensures Tolerates(dstin, src, count) ==> Copied(cpu.Bytes(), old(cpu.Bytes()), dstin, src, count)
    ensures !Tolerates(dstin, src, count) ==>
              var job := Job(old(cpu.Bytes()), dstin, src, count);
              job.Spoiled() < count && 0 < job.Distance() <= job.Spoiled() &&
              cpu.Bytes()[dstin + job.Spoiled()] == old(cpu.Bytes())[src + job.Spoiled() - job.Distance()]
  {
    hide Patched;
    x0 := dstin;
    if 128 < count {
      CopyLong(cpu, dstin, src, count);
    } else if 64 < count {
      Copy128(cpu, dstin, src, count);
    } else if 32 < count {
      Copy64(cpu, dstin, src, count);
    } else if 16 <= count {
      CopyEnds(cpu, dstin, src, count, 16);
    } else if (count / 8) % 2 == 1 {
      CopyEnds(cpu, dstin, src, count, 8);
    } else if (count / 4) % 2 == 1 {
      CopyEnds(cpu, dstin, src, count, 4);
    } else if count != 0 {
      CopyThree(cpu, dstin, src, count);
    } else {
      CopiedNothing(cpu.Bytes(), dstin, src);
    }
  }

  /** Disjoint ranges, dest at or below src, and anything up to 128 bytes are tolerated. */
  lemma {:induction false} ToleratedCases(dest: nat, src: nat, n: nat)
    requires n <= 128 || dest <= src || src + n <= dest
    ensures Tolerates(dest, src, n)
  {
  }

  lemma {:induction false} CopiedAt(m: seq<Byte>, m': seq<Byte>, dest: nat, src: nat, n: nat, q: nat)
    requires q < n && dest + n <= |m| && src + n <= |m| && |m'| == |m|
    ensures Copied(m', m, dest, src, n) ==> m'[dest + q] == m[src + q]
  {
    if Copied(m', m, dest, src, n) {
      assert m'[dest + q] == m[src..src + n][q];
    }
  }

  /**
   Exactly the tolerated overlaps: for every other one there is a memory that memcpy copies wrongly,
   since byte Spoiled() of the destination is then the copy of an earlier, different source byte.
   */
  lemma {:induction false} UntoleratedFails(size: nat, dest: nat, src: nat, n: nat) returns (m: seq<Byte>)
    requires dest + n <= size && src + n <= size && !Tolerates(dest, src, n)
    ensures |m| == size
    ensures forall m': seq<Byte> ::
              |m'| == size &&
              (var job := Job(m, dest, src, n);
               m'[dest + job.Spoiled()] == m[src + job.Spoiled() - job.Distance()])
              ==> !Copied(m', m, dest, src, n)
  {
    var job := Job([], dest, src, n);
    var q, from := src + job.Spoiled(), src + job.Spoiled() - job.Distance();
    m := seq(size, i => if i == q then 1 else 0);
    forall m': seq<Byte> | |m'| == size && m'[dest + job.Spoiled()] == m[from]
      ensures !Copied(m', m, dest, src, n)
    {
      CopiedAt(m, m', dest, src, n, job.Spoiled());
    }
  }
}
