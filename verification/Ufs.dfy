/**
 The block map of a big-endian SVR4 UFS image, reading a file through it, and
 replacing a file's contents in place.  Block pointers are not negative, and the
 inode's place in the image is given.
 */
module Ufs {
  import opened Basics
  import opened Bytes
  import opened RingMath

  const NDADDR := 12
  const INOSIZE := 128

  datatype Error = Refused | IsSparse

  // the superblock's figures; an indirect block is full of 4-byte pointers
  datatype Fs = Fs(base: nat, bsize: nat, fsize: nat, nindir: nat) {
    ghost predicate Ok() {
      nindir > 0 && bsize == 4 * nindir
    }

    function Addr(frag: nat): nat {
      base + frag * fsize
    }
  }

  datatype Inode = Inode(mode: nat, size: nat, db: seq<nat>, ib: seq<nat>)

  function InodeAt(m: seq<Byte>, d: nat): (i: Inode)
    requires d + INOSIZE <= |m|
    ensures |i.db| == NDADDR && |i.ib| == 3
  {
    Inode(G16(m, d), G32(m, d + 12),
          seq(NDADDR, k requires 0 <= k < NDADDR => G32(m, d + 40 + 4 * k)),
          seq(3, k requires 0 <= k < 3 => G32(m, d + 88 + 4 * k)))
  }

  function Pow(n: nat, l: nat): (p: nat)
    ensures n > 0 ==> p > 0
  {
    if l == 0 then 1 else n * Pow(n, l - 1)
  }

  // pointer k of the indirect block at fragment fr
  function Entry(fs: Fs, m: seq<Byte>, fr: nat, k: nat): nat
    requires fs.Ok() && fs.Addr(fr) + fs.bsize <= |m| && k < fs.nindir
  {
    G32(m, fs.Addr(fr) + 4 * k)
  }

  // the indirect blocks below fr are inside the image
  ghost predicate IndOk(fs: Fs, m: seq<Byte>, fr: nat, lvl: nat)
    decreases lvl
  {
    fs.Ok() && lvl >= 1 &&
    (fr == 0 ||
     (fs.Addr(fr) + fs.bsize <= |m|
      && (lvl > 1 ==> forall k | 0 <= k < fs.nindir :: IndOk(fs, m, Entry(fs, m, fr, k), lvl - 1))))
  }

  // ----- the lists, as they are built

  function Zeros(n: nat): (z: seq<nat>)
    ensures |z| == n && forall k | 0 <= k < n :: z[k] == 0
  {
    seq(n, _ => 0)
  }

  // the pointers below fr, one after the other
  function Ind(fs: Fs, m: seq<Byte>, fr: nat, lvl: nat): seq<nat>
    requires IndOk(fs, m, fr, lvl)
    decreases lvl, fs.nindir + 1
  {
    if fr == 0 then Zeros(Pow(fs.nindir, lvl)) else Gather(fs, m, fr, lvl, fs.nindir)
  }

  // those of the first n pointers of the block
  function Gather(fs: Fs, m: seq<Byte>, fr: nat, lvl: nat, n: nat): seq<nat>
    requires IndOk(fs, m, fr, lvl) && fr != 0 && n <= fs.nindir
    decreases lvl, n
  {
    if n == 0 then []
    else
      var x := Entry(fs, m, fr, n - 1);
      Gather(fs, m, fr, lvl, n - 1) + if lvl == 1 then [x] else Ind(fs, m, x, lvl - 1)
  }

  // a level the list needs is inside the image
  ghost predicate LevelOk(fs: Fs, m: seq<Byte>, ino: Inode, nblk: nat, l: nat)
    requires 1 <= l <= 3 && |ino.ib| == 3
  {
    Direct(fs, l) < nblk ==> IndOk(fs, m, ino.ib[l-1], l)
  }

  ghost predicate MapOk(fs: Fs, m: seq<Byte>, ino: Inode, nblk: nat) {
    && fs.Ok() && |ino.db| == NDADDR && |ino.ib| == 3
    && forall l | 1 <= l <= 3 :: LevelOk(fs, m, ino, nblk, l)
  }

  // the blocks reached before level l
  function Direct(fs: Fs, l: nat): nat {
    if l <= 1 then NDADDR else Direct(fs, l - 1) + Pow(fs.nindir, l - 1)
  }

  // ----- the block map, by arithmetic

  // the pointer k below fr
  function Walk(fs: Fs, m: seq<Byte>, fr: nat, lvl: nat, k: nat): nat
    requires IndOk(fs, m, fr, lvl) && k < Pow(fs.nindir, lvl)
    decreases lvl
  {
    if fr == 0 then 0
    else
      var p := Pow(fs.nindir, lvl - 1);
      Digits(fs.nindir, p, k);
      var x := Entry(fs, m, fr, k / p);
      if lvl == 1 then x else Walk(fs, m, x, lvl - 1, k % p)
  }

  lemma Digits(n: nat, p: nat, k: nat)
    requires n > 0 && p > 0 && k < n * p
    ensures k / p < n && k % p < p
  {
    if k / p >= n {
      MulMono(p, n, k / p);
      assert false;
    }
  }

  lemma MulMono(p: nat, a: nat, b: nat)
    requires a <= b
    ensures p * a <= p * b
  {
  }

  // list and arithmetic agree below one indirect block
  lemma {:induction false} IndWalks(fs: Fs, m: seq<Byte>, fr: nat, lvl: nat)
    requires IndOk(fs, m, fr, lvl)
    ensures |Ind(fs, m, fr, lvl)| == Pow(fs.nindir, lvl)
    ensures forall k | 0 <= k < Pow(fs.nindir, lvl) :: Ind(fs, m, fr, lvl)[k] == Walk(fs, m, fr, lvl, k)
    decreases lvl, fs.nindir + 1
  {
    if fr != 0 {
      GatherWalks(fs, m, fr, lvl, fs.nindir);
    }
  }

  lemma {:induction false} GatherWalks(fs: Fs, m: seq<Byte>, fr: nat, lvl: nat, n: nat)
    requires IndOk(fs, m, fr, lvl) && fr != 0 && n <= fs.nindir
    ensures n * Pow(fs.nindir, lvl - 1) <= Pow(fs.nindir, lvl)
    ensures |Gather(fs, m, fr, lvl, n)| == n * Pow(fs.nindir, lvl - 1)
    ensures forall k | 0 <= k < n * Pow(fs.nindir, lvl - 1) :: Gather(fs, m, fr, lvl, n)[k] == Walk(fs, m, fr, lvl, k)
    decreases lvl, n
  {
    hide Walk, Ind, Pow;
    PowStep(fs.nindir, lvl, n);
    if n > 0 {
      GatherWalks(fs, m, fr, lvl, n - 1);
      if lvl > 1 {
        IndWalks(fs, m, Entry(fs, m, fr, n - 1), lvl - 1);
      }
      var front, whole := (n - 1) * Pow(fs.nindir, lvl - 1), Gather(fs, m, fr, lvl, n);
      forall k | 0 <= k < n * Pow(fs.nindir, lvl - 1) ensures whole[k] == Walk(fs, m, fr, lvl, k) {
        if k < front {
          assert whole[k] == Gather(fs, m, fr, lvl, n - 1)[k];
        } else {
          WalkAt(fs, m, fr, lvl, n - 1, k - front);
        }
      }
    }
  }

  lemma PowStep(nindir: nat, lvl: nat, n: nat)
    requires lvl >= 1 && n <= nindir
    ensures n * Pow(nindir, lvl - 1) <= Pow(nindir, lvl)
    ensures n > 0 ==> n * Pow(nindir, lvl - 1) == (n - 1) * Pow(nindir, lvl - 1) + Pow(nindir, lvl - 1)
    ensures n == 0 ==> n * Pow(nindir, lvl - 1) == 0
    ensures lvl == 1 ==> Pow(nindir, lvl - 1) == 1
  {
    MulMono(Pow(nindir, lvl - 1), n, nindir);
  }

  // pointer number r under entry q of the block
  lemma WalkAt(fs: Fs, m: seq<Byte>, fr: nat, lvl: nat, q: nat, r: nat)
    requires IndOk(fs, m, fr, lvl) && fr != 0 && q < fs.nindir && r < Pow(fs.nindir, lvl - 1)
    ensures var p := Pow(fs.nindir, lvl - 1);
      && q * p + r < Pow(fs.nindir, lvl)
      && Walk(fs, m, fr, lvl, q * p + r)
         == if lvl == 1 then Entry(fs, m, fr, q) else Walk(fs, m, Entry(fs, m, fr, q), lvl - 1, r)
  {
    var p := Pow(fs.nindir, lvl - 1);
    MulMono(p, q + 1, fs.nindir);
    assert (q + 1) * p == q * p + p;
    ModIs(q * p + r, p, q, r);
  }

  // logical block i: a direct pointer, or one below the indirect block of level 1, 2 or 3
  function Pointer(fs: Fs, m: seq<Byte>, ino: Inode, l: nat, i: nat): nat
    requires l <= 3 && MapOk(fs, m, ino, i + 1) && i < Direct(fs, l + 1)
  {
    if l == 0 then ino.db[i]
    else if i < Direct(fs, l) then Pointer(fs, m, ino, l - 1, i)
    else
      assert LevelOk(fs, m, ino, i + 1, l);
      Walk(fs, m, ino.ib[l-1], l, i - Direct(fs, l))
  }

  // the pointers of the direct blocks and of the first l levels, as far as they are needed
  function Listed(fs: Fs, m: seq<Byte>, ino: Inode, nblk: nat, l: nat): (out: seq<nat>)
    requires MapOk(fs, m, ino, nblk) && l <= 3
    ensures |out| >= nblk || |out| == Direct(fs, l + 1)
  {
    if l == 0 then ino.db
    else
      var out := Listed(fs, m, ino, nblk, l - 1);
      if |out| >= nblk then out
      else
        assert LevelOk(fs, m, ino, nblk, l);
        IndWalks(fs, m, ino.ib[l-1], l);
        out + Ind(fs, m, ino.ib[l-1], l)
  }

  function Blocks(fs: Fs, m: seq<Byte>, ino: Inode, nblk: nat): seq<nat>
    requires MapOk(fs, m, ino, nblk)
  {
    var out := Listed(fs, m, ino, nblk, 3);
    if |out| > nblk then out[..nblk] else out
  }

  lemma MapLess(fs: Fs, m: seq<Byte>, ino: Inode, nblk: nat, n: nat)
    requires MapOk(fs, m, ino, nblk) && n <= nblk
    ensures MapOk(fs, m, ino, n)
  {
    forall l | 1 <= l <= 3 ensures LevelOk(fs, m, ino, n, l) {
      assert LevelOk(fs, m, ino, nblk, l);
    }
  }

  lemma {:induction false} ListedIs(fs: Fs, m: seq<Byte>, ino: Inode, nblk: nat, l: nat, i: nat)
    requires MapOk(fs, m, ino, nblk) && l <= 3 && i < nblk && i < |Listed(fs, m, ino, nblk, l)|
    ensures MapOk(fs, m, ino, i + 1) && |Listed(fs, m, ino, nblk, l)| <= Direct(fs, l + 1)
    ensures Listed(fs, m, ino, nblk, l)[i] == Pointer(fs, m, ino, l, i)
  {
    hide Ind, Walk;
    MapLess(fs, m, ino, nblk, i + 1);
    if l > 0 {
      var out := Listed(fs, m, ino, nblk, l - 1);
      assert LevelOk(fs, m, ino, nblk, l);
      if |out| < nblk {
        IndWalks(fs, m, ino.ib[l-1], l);
      }
      if i < |out| {
        ListedIs(fs, m, ino, nblk, l - 1, i);
      } else {
        assert LevelOk(fs, m, ino, i + 1, l);
      }
    }
  }

  /** The list holds for each logical block the pointer the index arithmetic leads to, with 0 for a hole. */
  lemma {:induction false} BlocksArePointers(fs: Fs, m: seq<Byte>, ino: Inode, nblk: nat, i: nat)
    requires MapOk(fs, m, ino, nblk) && i < nblk && i < Direct(fs, 4)
    ensures |Blocks(fs, m, ino, nblk)| == if nblk < Direct(fs, 4) then nblk else Direct(fs, 4)
    ensures MapOk(fs, m, ino, i + 1) && Blocks(fs, m, ino, nblk)[i] == Pointer(fs, m, ino, 3, i)
  {
    hide Pointer, Listed, Direct;
    ListedIs(fs, m, ino, nblk, 3, i);
  }

  // ----- a file's contents

  function Count(fs: Fs, size: nat): (n: nat)
    requires fs.bsize > 0
    ensures size <= n * fs.bsize && (n > 0 ==> (n - 1) * fs.bsize < size)
  {
    var n := (size + fs.bsize - 1) / fs.bsize;
    assert size + fs.bsize - 1 == fs.bsize * n + (size + fs.bsize - 1) % fs.bsize;
    assert n > 0 ==> (n - 1) * fs.bsize == n * fs.bsize - fs.bsize;
    n
  }

  // how much of the file its block i holds
  function Part(fs: Fs, size: nat, i: nat): nat {
    if (i + 1) * fs.bsize <= size then fs.bsize else if i * fs.bsize <= size then size - i * fs.bsize else 0
  }

  // byte x of the image is file data in block i
  predicate InPart(fs: Fs, bl: seq<nat>, size: nat, i: nat, x: nat)
    requires i < |bl|
  {
    bl[i] != 0 && fs.Addr(bl[i]) <= x < fs.Addr(bl[i]) + Part(fs, size, i)
  }

  // the file's data is inside the image
  ghost predicate DataOk(fs: Fs, m: seq<Byte>, bl: seq<nat>, size: nat) {
    forall i | 0 <= i < |bl| :: bl[i] != 0 ==> fs.Addr(bl[i]) + Part(fs, size, i) <= |m|
  }

  // the file's bytes in its block i: zeros in a hole
  function Data(fs: Fs, m: seq<Byte>, bl: seq<nat>, size: nat, i: nat): (c: seq<Byte>)
    requires i < |bl| && (bl[i] != 0 ==> fs.Addr(bl[i]) + Part(fs, size, i) <= |m|)
    ensures |c| == Part(fs, size, i)
  {
    if bl[i] == 0 then seq(Part(fs, size, i), _ => 0) else m[fs.Addr(bl[i])..fs.Addr(bl[i]) + Part(fs, size, i)]
  }

  // the file's bytes in its first n blocks
  ghost function Content(fs: Fs, m: seq<Byte>, bl: seq<nat>, size: nat, n: nat): seq<Byte>
    requires n <= |bl| && DataOk(fs, m, bl, size)
  {
    if n == 0 then [] else Content(fs, m, bl, size, n - 1) + Data(fs, m, bl, size, n - 1)
  }

  // every block but the last is full
  lemma FullPart(fs: Fs, size: nat, i: nat)
    requires fs.bsize > 0 && i < Count(fs, size)
    ensures i * fs.bsize < size && i * fs.bsize + Part(fs, size, i) <= size
    ensures i + 1 < Count(fs, size) ==> Part(fs, size, i) == fs.bsize
    ensures i + 1 == Count(fs, size) ==> i * fs.bsize + Part(fs, size, i) == size && Part(fs, size, i) <= fs.bsize
  {
    var n := Count(fs, size);
    MulMono(fs.bsize, i, n - 1);
    assert (i + 1) * fs.bsize == i * fs.bsize + fs.bsize;
    if i + 1 < n {
      MulMono(fs.bsize, i + 1, n - 1);
    }
  }

  // blocks whose data is that of c make up c
  lemma {:induction false} ContentIs(fs: Fs, m: seq<Byte>, bl: seq<nat>, c: seq<Byte>, n: nat)
    requires fs.bsize > 0 && n <= |bl| == Count(fs, |c|) && DataOk(fs, m, bl, |c|)
    requires forall i | 0 <= i < n :: DataIs(fs, m, bl, c, i)
    ensures Content(fs, m, bl, |c|, n) == if n * fs.bsize <= |c| then c[..n * fs.bsize] else c
  {
    hide Count, Part, Data;
    if n > 0 {
      ContentIs(fs, m, bl, c, n - 1);
      FullPart(fs, |c|, n - 1);
      assert DataIs(fs, m, bl, c, n - 1);
      assert n * fs.bsize == (n - 1) * fs.bsize + fs.bsize;
      var p, q := (n - 1) * fs.bsize, (n - 1) * fs.bsize + Part(fs, |c|, n - 1);
      assert c[..p] + c[p..q] == c[..q];
      assert q == |c| ==> c[..q] == c;
    }
  }

  // block i of the file holds its part of c
  ghost predicate DataIs(fs: Fs, m: seq<Byte>, bl: seq<nat>, c: seq<Byte>, i: nat)
    requires fs.bsize > 0 && i < |bl| == Count(fs, |c|) && DataOk(fs, m, bl, |c|)
  {
    FullPart(fs, |c|, i);
    Data(fs, m, bl, |c|, i) == c[i * fs.bsize..i * fs.bsize + Part(fs, |c|, i)]
  }

  // no byte of the image is in two blocks of the file
  ghost predicate Apart(fs: Fs, bl: seq<nat>, size: nat) {
    forall i, j, x {:trigger InPart(fs, bl, size, i, x), InPart(fs, bl, size, j, x)} |
      0 <= i < j < |bl| && InPart(fs, bl, size, i, x) :: !InPart(fs, bl, size, j, x)
  }

  // nothing but the file's data differs
  ghost predicate OnlyData(fs: Fs, m: seq<Byte>, m': seq<Byte>, bl: seq<nat>, size: nat) {
    && |m'| == |m|
    && forall x | 0 <= x < |m| && (forall i | 0 <= i < |bl| :: !InPart(fs, bl, size, i, x)) :: m'[x] == m[x]
  }

  // the bytes of the image from lo to hi are no data of the file
  ghost predicate NoData(fs: Fs, bl: seq<nat>, size: nat, lo: nat, hi: nat) {
    forall i, x {:trigger InPart(fs, bl, size, i, x)} | 0 <= i < |bl| && lo <= x < hi :: !InPart(fs, bl, size, i, x)
  }

  // none of the indirect blocks below fr is data of the file
  ghost predicate Clear(fs: Fs, m: seq<Byte>, fr: nat, lvl: nat, bl: seq<nat>, size: nat)
    requires IndOk(fs, m, fr, lvl)
    decreases lvl
  {
    fr == 0 ||
    (NoData(fs, bl, size, fs.Addr(fr), fs.Addr(fr) + fs.bsize)
     && (lvl > 1 ==> forall k | 0 <= k < fs.nindir :: Clear(fs, m, Entry(fs, m, fr, k), lvl - 1, bl, size)))
  }

  lemma EntryKept(fs: Fs, m: seq<Byte>, m': seq<Byte>, fr: nat, bl: seq<nat>, size: nat)
    requires fs.Ok() && fs.Addr(fr) + fs.bsize <= |m| && OnlyData(fs, m, m', bl, size)
    requires NoData(fs, bl, size, fs.Addr(fr), fs.Addr(fr) + fs.bsize)
    ensures forall k | 0 <= k < fs.nindir :: Entry(fs, m', fr, k) == Entry(fs, m, fr, k)
  {
  }

  // data written leaves the indirect blocks as they were
  lemma {:induction false} IndKept(fs: Fs, m: seq<Byte>, m': seq<Byte>, fr: nat, lvl: nat, bl: seq<nat>, size: nat)
    requires IndOk(fs, m, fr, lvl) && Clear(fs, m, fr, lvl, bl, size) && OnlyData(fs, m, m', bl, size)
    ensures IndOk(fs, m', fr, lvl) && Ind(fs, m', fr, lvl) == Ind(fs, m, fr, lvl)
    decreases lvl, fs.nindir + 1
  {
    if fr != 0 {
      EntryKept(fs, m, m', fr, bl, size);
      if lvl > 1 {
        forall k | 0 <= k < fs.nindir ensures IndOk(fs, m', Entry(fs, m', fr, k), lvl - 1) {
          IndKept(fs, m, m', Entry(fs, m, fr, k), lvl - 1, bl, size);
        }
      }
      GatherKept(fs, m, m', fr, lvl, bl, size, fs.nindir);
    }
  }

  lemma {:induction false} GatherKept(fs: Fs, m: seq<Byte>, m': seq<Byte>, fr: nat, lvl: nat, bl: seq<nat>,
                                      size: nat, n: nat)
    requires IndOk(fs, m, fr, lvl) && Clear(fs, m, fr, lvl, bl, size) && OnlyData(fs, m, m', bl, size)
    requires fr != 0 && n <= fs.nindir && IndOk(fs, m', fr, lvl)
    ensures Gather(fs, m', fr, lvl, n) == Gather(fs, m, fr, lvl, n)
    decreases lvl, n
  {
    EntryKept(fs, m, m', fr, bl, size);
    if n > 0 {
      GatherKept(fs, m, m', fr, lvl, bl, size, n - 1);
      if lvl > 1 {
        IndKept(fs, m, m', Entry(fs, m, fr, n - 1), lvl - 1, bl, size);
      }
    }
  }

  ghost predicate LevelClear(fs: Fs, m: seq<Byte>, ino: Inode, nblk: nat, bl: seq<nat>, size: nat, l: nat)
    requires 1 <= l <= 3 && |ino.ib| == 3
  {
    Direct(fs, l) < nblk ==> IndOk(fs, m, ino.ib[l-1], l) && Clear(fs, m, ino.ib[l-1], l, bl, size)
  }

  lemma {:induction false} ListedKept(fs: Fs, m: seq<Byte>, m': seq<Byte>, ino: Inode, nblk: nat, bl: seq<nat>,
                                      size: nat, l: nat)
    requires MapOk(fs, m, ino, nblk) && MapOk(fs, m', ino, nblk) && l <= 3 && OnlyData(fs, m, m', bl, size)
    requires forall l | 1 <= l <= 3 :: LevelClear(fs, m, ino, nblk, bl, size, l)
    ensures Listed(fs, m', ino, nblk, l) == Listed(fs, m, ino, nblk, l)
  {
    hide Ind;
    if l > 0 {
      ListedKept(fs, m, m', ino, nblk, bl, size, l - 1);
      assert LevelClear(fs, m, ino, nblk, bl, size, l);
      if |Listed(fs, m, ino, nblk, l - 1)| < nblk {
        IndKept(fs, m, m', ino.ib[l-1], l, bl, size);
      }
    }
  }

  // a file: its inode and its blocks inside the image
  ghost predicate FileOk(fs: Fs, m: seq<Byte>, d: nat) {
    && fs.Ok() && d + INOSIZE <= |m|
    && var ino := InodeAt(m, d);
       var n := Count(fs, ino.size);
       && n <= Direct(fs, 4) && MapOk(fs, m, ino, n) && DataOk(fs, m, Blocks(fs, m, ino, n), ino.size)
  }

  function FileBlocks(fs: Fs, m: seq<Byte>, d: nat): seq<nat>
    requires FileOk(fs, m, d)
  {
    Blocks(fs, m, InodeAt(m, d), Count(fs, InodeAt(m, d).size))
  }

  // the file's data blocks are apart from each other, from its inode and from its indirect blocks
  ghost predicate Separate(fs: Fs, m: seq<Byte>, d: nat)
    requires FileOk(fs, m, d)
  {
    var ino, bl := InodeAt(m, d), FileBlocks(fs, m, d);
    && Apart(fs, bl, ino.size) && NoData(fs, bl, ino.size, d, d + INOSIZE)
    && forall l | 1 <= l <= 3 :: LevelClear(fs, m, ino, Count(fs, ino.size), bl, ino.size, l)
  }

  // writing the file's data leaves its inode and its block list as they were
  lemma FileKept(fs: Fs, m: seq<Byte>, m': seq<Byte>, d: nat)
    requires FileOk(fs, m, d) && Separate(fs, m, d)
    requires OnlyData(fs, m, m', FileBlocks(fs, m, d), InodeAt(m, d).size)
    ensures FileOk(fs, m', d) && InodeAt(m', d) == InodeAt(m, d) && FileBlocks(fs, m', d) == FileBlocks(fs, m, d)
  {
    hide Ind, IndOk, Clear, Listed;
    var ino, bl := InodeAt(m, d), FileBlocks(fs, m, d);
    var n := Count(fs, ino.size);
    assert forall x | d <= x < d + INOSIZE :: m'[x] == m[x];
    assert InodeAt(m', d) == ino;
    forall l | 1 <= l <= 3 ensures LevelOk(fs, m', ino, n, l) {
      assert LevelClear(fs, m, ino, n, bl, ino.size, l);
      if Direct(fs, l) < n {
        IndKept(fs, m, m', ino.ib[l-1], l, bl, ino.size);
      }
    }
    ListedKept(fs, m, m', ino, n, bl, ino.size, 3);
  }

  class Image {
    const m: array<Byte>
    const fs: Fs

    // fb: n bytes from a fragment on, fewer at the end of the image
    method Fragment(frag: nat, n: nat) returns (c: seq<Byte>)
      ensures var o := fs.Addr(frag);
        c == if o + n <= m.Length then m[o..o + n] else if o <= m.Length then m[o..] else []
    {
      var o := fs.Addr(frag);
      c := if o + n <= m.Length then m[o..o + n] else if o <= m.Length then m[o..] else [];
    }

    /** read: the file's bytes block by block, zeros for a hole, cut to its size. */
    method Read(d: nat) returns (c: seq<Byte>)
      requires FileOk(fs, m[..], d)
      ensures |c| == InodeAt(m[..], d).size
      ensures c == Content(fs, m[..], FileBlocks(fs, m[..], d), |c|, |FileBlocks(fs, m[..], d)|)
    {
      hide IndOk, MapOk, Direct, Listed, FileOk, Blocks, InodeAt, Count, Part, Data, Content, DataOk;
      ghost var all := m[..];
      FileFacts(fs, all, d);
      var ino := InodeAt(m[..], d);
      var size := ino.size;
      var n := Count(fs, size);
      var bl := Blocks(fs, m[..], ino, n);
      c := [];
      NothingRead(fs, all, bl, size);
      var i := 0;
      while i < |bl|
        invariant 0 <= i <= |bl| && SoFar(fs, all, bl, size, i, c)
      {
        var b;
        if bl[i] != 0 {
          b := Fragment(bl[i], fs.bsize);
        } else {
          b := seq(fs.bsize, _ => 0);
        }
        ReadMore(fs, all, bl, size, i, c, b);
        c := c + b;
        i := i + 1;
      }
      c := c[..size];
    }

    // one block of the file written
    method Put(bl: seq<nat>, c: seq<Byte>, i: nat)
      requires fs.bsize > 0 && i < |bl| == Count(fs, |c|) && DataOk(fs, m[..], bl, |c|) && bl[i] != 0
      modifies m
      ensures DataOk(fs, m[..], bl, |c|) && DataIs(fs, m[..], bl, c, i)
      ensures forall x | 0 <= x < m.Length && !InPart(fs, bl, |c|, i, x) :: m[x] == old(m[x])
    {
      FullPart(fs, |c|, i);
      var from := i * fs.bsize;
      Store(fs.Addr(bl[i]), c[from..from + Part(fs, |c|, i)]);
    }

    method Store(o: nat, s: seq<Byte>)
      requires o + |s| <= m.Length
      modifies m
      ensures m[..][o..o + |s|] == s
      ensures forall x | 0 <= x < m.Length && !(o <= x < o + |s|) :: m[x] == old(m[x])
    {
      forall x | o <= x < o + |s| {
        m[x] := s[x - o];
      }
    }

    /** overwrite: only a regular file without holes is taken, and only data no longer than it; then the
        file's bytes become the data and zeros, and no other byte of the image changes. */
    method Overwrite(d: nat, data: seq<Byte>) returns (err: Option<Error>)
      requires FileOk(fs, m[..], d) && Separate(fs, m[..], d)
      modifies m
      ensures var ino := InodeAt(old(m[..]), d);
        && (err == Some(Refused) <==> ino.mode / 0x1000 != 8 || |data| > ino.size)
        && (err == Some(IsSparse) <==>
             ino.mode / 0x1000 == 8 && |data| <= ino.size && 0 in FileBlocks(fs, old(m[..]), d))
      ensures err.Some? ==> m[..] == old(m[..])
      ensures err.None? ==>
        OnlyData(fs, old(m[..]), m[..], FileBlocks(fs, old(m[..]), d), InodeAt(old(m[..]), d).size)
      ensures err.None? ==> FileOk(fs, m[..], d) && FileBlocks(fs, m[..], d) == FileBlocks(fs, old(m[..]), d)
      ensures err.None? ==> InodeAt(m[..], d) == InodeAt(old(m[..]), d)
      ensures err.None? ==>
        Content(fs, m[..], FileBlocks(fs, m[..], d), InodeAt(m[..], d).size, |FileBlocks(fs, m[..], d)|)
        == data + seq(InodeAt(m[..], d).size - |data|, _ => 0)
    {
      hide IndOk, MapOk, Direct, Listed, Blocks, InodeAt, FileOk, OnlyData, Part, Count, DataIs, Content;
      ghost var was := m[..];
      FileFacts(fs, was, d);
      var ino := InodeAt(m[..], d);
      if ino.mode / 0x1000 != 8 || |data| > ino.size {
        return Some(Refused);
      }
      var n := Count(fs, ino.size);
      var bl := Blocks(fs, m[..], ino, n);
      if 0 in bl {
        return Some(IsSparse);
      }
      var c := data + seq(ino.size - |data|, _ => 0);
      OnlyNone(fs, was, bl, |c|);
      var i := 0;
      while i < |bl|
        invariant 0 <= i <= |bl| && |bl| == Count(fs, |c|) && DataOk(fs, m[..], bl, |c|)
        invariant OnlyData(fs, was, m[..], bl, |c|)
        invariant forall k | 0 <= k < i :: DataIs(fs, m[..], bl, c, k)
      {
        ghost var m1 := m[..];
        Put(bl, c, i);
        OnlyMore(fs, was, m1, m[..], bl, |c|, i);
        DataKept(fs, m1, m[..], bl, c, i);
        i := i + 1;
      }
      FileKept(fs, was, m[..], d);
      ContentIs(fs, m[..], bl, c, |bl|);
      return None;
    }
  }

  lemma OnlyNone(fs: Fs, m: seq<Byte>, bl: seq<nat>, size: nat)
    ensures OnlyData(fs, m, m, bl, size)
  {
  }

  lemma OnlyMore(fs: Fs, m: seq<Byte>, m1: seq<Byte>, m2: seq<Byte>, bl: seq<nat>, size: nat, i: nat)
    requires OnlyData(fs, m, m1, bl, size) && |m2| == |m1| && i < |bl|
    requires forall x | 0 <= x < |m2| && !InPart(fs, bl, size, i, x) :: m2[x] == m1[x]
    ensures OnlyData(fs, m, m2, bl, size)
  {
  }

  // the blocks already written stay so
  lemma DataKept(fs: Fs, m1: seq<Byte>, m2: seq<Byte>, bl: seq<nat>, c: seq<Byte>, i: nat)
    requires fs.bsize > 0 && i < |bl| == Count(fs, |c|) && |m2| == |m1| && Apart(fs, bl, |c|)
    requires DataOk(fs, m1, bl, |c|) && DataOk(fs, m2, bl, |c|)
    requires forall x | 0 <= x < |m2| && !InPart(fs, bl, |c|, i, x) :: m2[x] == m1[x]
    requires forall k | 0 <= k < i :: DataIs(fs, m1, bl, c, k)
    ensures forall k | 0 <= k < i :: DataIs(fs, m2, bl, c, k)
  {
    forall k | 0 <= k < i ensures DataIs(fs, m2, bl, c, k) {
      assert DataIs(fs, m1, bl, c, k);
      forall x | 0 <= x < |m2| && InPart(fs, bl, |c|, k, x) ensures m2[x] == m1[x] {
        assert !InPart(fs, bl, |c|, i, x);
      }
      assert Data(fs, m2, bl, |c|, k) == Data(fs, m1, bl, |c|, k);
    }
  }

  // the first i blocks read; the last one to its end
  ghost predicate SoFar(fs: Fs, m: seq<Byte>, bl: seq<nat>, size: nat, i: nat, c: seq<Byte>)
    requires i <= |bl| && DataOk(fs, m, bl, size)
  {
    if i < |bl| then |c| == i * fs.bsize && c == Content(fs, m, bl, size, i)
    else size <= |c| && c[..size] == Content(fs, m, bl, size, i)
  }

  lemma NothingRead(fs: Fs, m: seq<Byte>, bl: seq<nat>, size: nat)
    requires fs.bsize > 0 && |bl| == Count(fs, size) && DataOk(fs, m, bl, size)
    ensures SoFar(fs, m, bl, size, 0, [])
  {
  }

  lemma ReadMore(fs: Fs, m: seq<Byte>, bl: seq<nat>, size: nat, i: nat, c: seq<Byte>, b: seq<Byte>)
    requires fs.bsize > 0 && i < |bl| == Count(fs, size) && DataOk(fs, m, bl, size) && SoFar(fs, m, bl, size, i, c)
    requires bl[i] == 0 ==> b == seq(fs.bsize, _ => 0)
    requires bl[i] != 0 ==> var o := fs.Addr(bl[i]);
      b == if o + fs.bsize <= |m| then m[o..o + fs.bsize] else if o <= |m| then m[o..] else []
    ensures SoFar(fs, m, bl, size, i + 1, c + b)
  {
    hide Count, Part;
    FullPart(fs, size, i);
    assert (i + 1) * fs.bsize == i * fs.bsize + fs.bsize;
    var part := Part(fs, size, i);
    assert |b| >= part && b[..part] == Data(fs, m, bl, size, i);
    if i + 1 == |bl| {
      assert (c + b)[..size] == c + b[..part];
    } else {
      assert b[..part] == b;
    }
  }

  lemma FileFacts(fs: Fs, m: seq<Byte>, d: nat)
    requires FileOk(fs, m, d)
    ensures var ino := InodeAt(m, d);
      && d + INOSIZE <= |m| && fs.bsize > 0 && MapOk(fs, m, ino, Count(fs, ino.size))
      && FileBlocks(fs, m, d) == Blocks(fs, m, ino, Count(fs, ino.size))
      && |FileBlocks(fs, m, d)| == Count(fs, ino.size) && DataOk(fs, m, FileBlocks(fs, m, d), ino.size)
  {
  }

}
