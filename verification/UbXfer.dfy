/**
 Byte access to a block device that moves whole blocks only.  What each block
 transfer answers is a script; one that fails may have moved some of its blocks.
 Block numbers are 32-bit; a unit stays 64 KB short of the 2 TB they reach.
 */
module UbXfer {
  import opened Basics
  import opened Bytes
  import opened RingMath

  const BS := 512
  const UB_RWMAX := 64 * 1024
  const REACH := WORD * BS

  datatype Errno = EROFS | EINVAL | EIO

  // a block transfer goes through, or fails having moved k blocks
  datatype Answer = Fine | Fails(k: nat)

  // which transfer failed, if one did, and whether it was a read into the bounce buffer
  datatype Met = NoFailure | Failure(at: nat, filling: bool)

  // the first answer that is not Fine is at index i
  predicate FirstBad(answers: seq<Answer>, i: nat) {
    i < |answers| && answers[i].Fails? && forall j | 0 <= j < i :: answers[j].Fine?
  }

  // a turn of the loop moves whole blocks
  predicate Whole(pos: nat, rest: nat) {
    pos % BS == 0 && rest >= BS
  }

  // ... and this many bytes: no more blocks than fit a transfer or the unit, or the rest of a block
  function Turn(size: nat, pos: nat, rest: nat): nat {
    if Whole(pos, rest) then Least(Least(rest / BS, UB_RWMAX / BS), if size > pos then (size - pos) / BS else 0) * BS
    else Least(BS - pos % BS, rest)
  }

  function Least(a: nat, b: nat): nat {
    if a < b then a else b
  }

  /** The bytes of the access that the failing transfer has moved all the same: its first k blocks, or the
      part of the one block it wrote; a read into the bounce buffer moves none. */
  function Spill(a: Answer, filling: bool, size: nat, pos: nat, rest: nat): nat {
    if a.Fine? || filling then 0
    else if Whole(pos, rest) then Least(a.k * BS, Turn(size, pos, rest))
    else if a.k == 0 then 0 else Turn(size, pos, rest)
  }

  predicate AllFine(answers: seq<Answer>) {
    forall j | 0 <= j < |answers| :: answers[j].Fine?
  }

  // the bytes a flat array of the unit's size would move
  function Flat(size: nat, pos: nat, len: nat): nat {
    if pos >= size then 0 else if len < size - pos then len else size - pos
  }

  // the byte position the 32-bit block number leads to
  function Reached(where: nat): (pos: nat)
    ensures pos < REACH
  {
    where % REACH
  }

  lemma BlockOf(where: nat, done: nat, pos: nat)
    requires pos == Reached(where) && (pos + done) / BS < WORD
    ensures (where + done) / BS % WORD == (pos + done) / BS && (where + done) % BS == (pos + done) % BS
  {
    var q := where / REACH;
    assert where == REACH * q + pos;
    var y := pos + done;
    assert where + done == BS * (WORD * q + y / BS) + y % BS;
    ModIs(where + done, BS, WORD * q + y / BS, y % BS);
    ModIs(WORD * q + y / BS, WORD, q, y / BS);
  }

  /** The access is the one to a flat array at the asked position exactly when that position is within
      reach, or nothing is asked, or what it wraps to is past the end as well. */
  lemma FlatIff(size: nat, where: nat, len: nat)
    requires size < REACH
    ensures Flat(size, Reached(where), len) == Flat(size, where, len) <==>
      where < REACH || len == 0 || Reached(where) >= size
  {
  }

  // a position 2 TB out reads the unit's beginning
  lemma WrapsAround()
    ensures Flat(BS, REACH, 1) == 0 && Flat(BS, Reached(REACH), 1) == 1
  {
  }

  // the bytes d at o, and nothing else changed
  ghost predicate Overlaid(m: seq<Byte>, m': seq<Byte>, o: nat, d: seq<Byte>) {
    && |m'| == |m| && o + |d| <= |m|
    && forall x | 0 <= x < |m| :: m'[x] == if o <= x < o + |d| then d[x - o] else m[x]
  }

  lemma OverlaidIs(m: seq<Byte>, m': seq<Byte>, o: nat, d: seq<Byte>)
    requires |m'| == |m| && o + |d| <= |m|
    requires forall x | 0 <= x < |m| :: m'[x] == if o <= x < o + |d| then d[x - o] else m[x]
    ensures Overlaid(m, m', o, d)
  {
  }

  lemma OverlaidNone(m: seq<Byte>, o: nat)
    requires o <= |m|
    ensures forall d: seq<Byte> | d == [] :: Overlaid(m, m, o, d)
  {
  }

  lemma OverlaidEmpty(m: seq<Byte>, m': seq<Byte>, o: nat, o': nat)
    requires Overlaid(m, m', o, []) && o' <= |m|
    ensures Overlaid(m, m', o', [])
  {
  }

  lemma SubSlice(m: seq<Byte>, base: nat, off: nat, n: nat)
    requires base + BS <= |m| && off + n <= BS
    ensures m[base..base + BS][off..off + n] == m[base + off..base + off + n]
  {
    var a, b := m[base..base + BS][off..off + n], m[base + off..base + off + n];
    forall k | 0 <= k < n ensures a[k] == b[k] {
      assert a[k] == m[base..base + BS][off + k] == m[base + (off + k)];
    }
  }

  // a block read whole into the bounce buffer
  lemma BounceIs(was: seq<Byte>, now: seq<Byte>, disk: seq<Byte>, lba: nat)
    requires |was| == BS && lba * BS + BS <= |disk| && Overlaid(was, now, 0, disk[lba * BS..lba * BS + 1 * BS])
    ensures now == disk[lba * BS..lba * BS + BS]
  {
  }

  // a block with a part replaced, put back over itself, replaces that part alone
  lemma OverlaidPart(m: seq<Byte>, m': seq<Byte>, base: nat, off: nat, block: seq<Byte>, block': seq<Byte>,
                     part: seq<Byte>)
    requires base + |block| <= |m| && block == m[base..base + |block|] && Overlaid(block, block', off, part)
    requires Overlaid(m, m', base, block')
    ensures Overlaid(m, m', base + off, part)
  {
    var o := base + off;
    forall x | 0 <= x < |m| ensures m'[x] == if o <= x < o + |part| then part[x - o] else m[x] {
      if base <= x < base + |block| {
        assert block[x - base] == m[x];
      }
    }
  }

  // k bytes between the buffer at `at` and the unit at `p`, and nothing else
  ghost predicate Moved(b: seq<Byte>, b': seq<Byte>, d: seq<Byte>, d': seq<Byte>, at: nat, p: nat, k: nat,
                        write: bool) {
    && at + k <= |b| && p + k <= |d|
    && if write then b' == b && Overlaid(d, d', p, b[at..at + k]) else d' == d && Overlaid(b, b', at, d[p..p + k])
  }

  // the first n bytes of the access
  ghost predicate Progress(b0: seq<Byte>, b: seq<Byte>, d0: seq<Byte>, d: seq<Byte>, pos: nat, n: nat, write: bool) {
    if n == 0 then b == b0 && d == d0 else Moved(b0, b, d0, d, 0, pos, n, write)
  }

  lemma ProgressMore(b0: seq<Byte>, b: seq<Byte>, b': seq<Byte>, d0: seq<Byte>, d: seq<Byte>, d': seq<Byte>,
                     pos: nat, n: nat, k: nat, write: bool)
    requires Progress(b0, b, d0, d, pos, n, write) && Moved(b, b', d, d', n, pos + n, k, write)
    ensures Progress(b0, b', d0, d', pos, n + k, write)
  {
  }

  lemma ProgressNone(b: seq<Byte>, d: seq<Byte>, pos: nat, write: bool)
    ensures Progress(b, b, d, d, pos, 0, write)
  {
  }

  lemma FlatBounds(size: nat, pos: nat, len: nat)
    ensures 0 <= Flat(size, pos, len) <= len
  {
  }

  // short of the end there is more to move, and at the end there is not
  lemma FlatMore(size: nat, pos: nat, len: nat, done: nat)
    requires done <= Flat(size, pos, len) && done < len
    ensures pos + done >= size ==> done == Flat(size, pos, len)
    ensures done > 0 ==> pos + done <= size
  {
  }

  lemma FlatStep(size: nat, pos: nat, len: nat, n: nat)
    requires pos + n <= size && n <= len
    ensures n <= Flat(size, pos, len)
  {
  }

  lemma InBlock(p: nat, lba: nat, off: nat)
    requires lba == p / BS && off == p % BS
    ensures p == lba * BS + off
  {
  }

  lemma WholeBlocks(blocks: nat, lba: nat, off: nat, rest: nat)
    requires lba < blocks && off < BS
    ensures Whole(lba * BS + off, rest) <==> off == 0 && rest >= BS
    ensures (lba * BS + off) % BS == off
    ensures off == 0 ==> (blocks * BS - lba * BS) / BS == blocks - lba
  {
    ModIs(lba * BS + off, BS, lba, off);
    if off == 0 {
      ModIs((blocks - lba) * BS, BS, blocks - lba, 0);
    }
  }

  /** What the answer r, the bytes moved and the failure met come to. */
  ghost predicate Reported(answers: seq<Answer>, size: nat, pos: nat, len: nat, r: int, moved: nat, met: Met) {
    var done := if r < 0 then 0 else r;
    && -1 <= r && done <= moved <= Flat(size, pos, len)
    && match met
       case NoFailure =>
         r == moved == Flat(size, pos, len) && (r > 0 && answers != [] ==> answers[0].Fine?)
       case Failure(i, filling) =>
         && r != 0 && (i == 0 ==> r < 0) && FirstBad(answers, i) && done < Flat(size, pos, len)
         && (filling ==> !Whole(pos + done, len - done))
         && moved == done + Spill(answers[i], filling, size, pos + done, len - done)
  }

  // short of the end of the unit a turn moves something
  lemma TurnMoves(blocks: nat, pos: nat, rest: nat)
    requires pos < blocks * BS && rest > 0
    ensures Turn(blocks * BS, pos, rest) > 0
  {
    if Whole(pos, rest) {
      var q := pos / BS;
      ModIs((blocks - q) * BS, BS, blocks - q, 0);
      assert blocks * BS - pos == (blocks - q) * BS;
    }
  }

  lemma SpillWhole(a: Answer, size: nat, pos: nat, rest: nat)
    requires Whole(pos, rest) && Turn(size, pos, rest) > 0 && a.Fails?
    ensures Spill(a, false, size, pos, rest) == 0 <==> a.k == 0
  {
    hide Turn, Whole;
  }

  // the failing transfer has moved nothing of the access exactly when it moved no block, or filled the bounce buffer
  lemma SpillNone(a: Answer, filling: bool, blocks: nat, pos: nat, rest: nat)
    requires pos < blocks * BS && rest > 0 && a.Fails?
    ensures Spill(a, filling, blocks * BS, pos, rest) == 0 <==> filling || a.k == 0
  {
    hide Turn;
    TurnMoves(blocks, pos, rest);
    if Whole(pos, rest) && !filling {
      SpillWhole(a, blocks * BS, pos, rest);
    }
  }

  lemma FlatInside(size: nat, pos: nat, len: nat, done: nat)
    requires done < Flat(size, pos, len)
    ensures pos + done < size && done < len
  {
  }

  /** The bytes reported are the bytes moved exactly when no transfer failed, or the failing one moved no
      block, or it was a read into the bounce buffer. */
  lemma MovedIsReported(answers: seq<Answer>, blocks: nat, pos: nat, len: nat, r: int, moved: nat, met: Met)
    requires Reported(answers, blocks * BS, pos, len, r, moved, met)
    ensures moved == (if r < 0 then 0 else r) <==> met.NoFailure? || met.filling || answers[met.at].k == 0
    ensures AllFine(answers) ==> met.NoFailure? && r == moved == Flat(blocks * BS, pos, len)
    ensures (forall j | 0 <= j < |answers| :: answers[j].Fails? ==> answers[j].k == 0) ==>
      moved == if r < 0 then 0 else r
  {
    hide Spill, Flat, Whole;
    match met
    case NoFailure =>
    case Failure(i, filling) =>
      var done := if r < 0 then 0 else r;
      FlatInside(blocks * BS, pos, len, done);
      SpillNone(answers[i], filling, blocks, pos + done, len - done);
  }

  lemma HalfMoved(blocks: nat, r: int, moved: nat, met: Met)
    requires blocks >= 2 && Reported([Fails(1)], blocks * BS, Reached(0), 2 * BS, r, moved, met)
    ensures r == -1 && moved == BS && Reached(0) == 0
  {
    assert met == Failure(0, false);
    assert Turn(blocks * BS, 0, 2 * BS) >= BS;
  }

  class Unit {
    const disk: array<Byte>
    const bounce: array<Byte>
    const blocks: nat
    const wr: bool

    ghost predicate Valid() {
      && disk.Length == blocks * BS && bounce.Length == BS && disk != bounce
      && blocks + UB_RWMAX / BS <= WORD
    }

    // ub_blocks: n blocks at lba, from the unit or to it
    method Blocks(buf: array<Byte>, at: nat, lba: nat, n: nat, write: bool, a: Answer) returns (ok: bool, ghost k: nat)
      requires Valid() && buf != disk && lba + n <= blocks && at + n * BS <= buf.Length
      modifies if write then {disk} else {buf}
      ensures (ok <==> a.Fine?) && k == if a.Fine? then n else Least(a.k, n)
      ensures Moved(old(buf[..]), buf[..], old(disk[..]), disk[..], at, lba * BS, k * BS, write)
    {
      var m := if a.Fine? || a.k >= n then n else a.k;
      if write {
        forall x | 0 <= x < m * BS {
          disk[lba * BS + x] := buf[at + x];
        }
      } else {
        forall x | 0 <= x < m * BS {
          buf[at + x] := disk[lba * BS + x];
        }
      }
      return a.Fine?, m;
    }

    // part of a block, through the bounce buffer
    method Part(buf: array<Byte>, at: nat, lba: nat, off: nat, chunk: nat, write: bool, a: Answer, b: Answer)
      returns (ok: bool, ghost k: nat)
      requires Valid() && buf != disk && buf != bounce && lba < blocks
      requires off + chunk <= BS && at + chunk <= buf.Length
      modifies bounce, if write then {disk} else {buf}
      ensures ok <==> a.Fine? && (write ==> b.Fine?)
      ensures k == if ok then chunk else if a.Fails? || b.k == 0 then 0 else chunk
      ensures Moved(old(buf[..]), buf[..], old(disk[..]), disk[..], at, lba * BS + off, k, write)
    {
      hide Overlaid;
      ghost var none;
      ok, none := Blocks(bounce, 0, lba, 1, false, a);
      if !ok {
        OverlaidNone(buf[..], at);
        OverlaidNone(disk[..], lba * BS + off);
        return false, 0;
      }
      BounceIs(old(bounce[..]), bounce[..], disk[..], lba);
      if write {
        ok, k := PartOut(buf, at, lba, off, chunk, b);
      } else {
        PartIn(buf, at, lba, off, chunk);
        k := chunk;
      }
    }

    // the part wanted, out of the bounce buffer that holds its block
    method PartIn(buf: array<Byte>, at: nat, lba: nat, off: nat, chunk: nat)
      requires Valid() && buf != disk && buf != bounce && lba < blocks
      requires off + chunk <= BS && at + chunk <= buf.Length && bounce[..] == disk[lba * BS..lba * BS + BS]
      modifies buf
      ensures Overlaid(old(buf[..]), buf[..], at, disk[lba * BS + off..lba * BS + off + chunk])
    {
      forall x | 0 <= x < chunk {
        buf[at + x] := bounce[off + x];
      }
      SubSlice(disk[..], lba * BS, off, chunk);
      assert disk[..][lba * BS..lba * BS + BS] == bounce[..];
    }

    // the part given, into the block the bounce buffer holds, and that back to the unit
    method PartOut(buf: array<Byte>, at: nat, lba: nat, off: nat, chunk: nat, b: Answer)
      returns (ok: bool, ghost k: nat)
      requires Valid() && buf != disk && buf != bounce && lba < blocks
      requires off + chunk <= BS && at + chunk <= buf.Length && bounce[..] == disk[lba * BS..lba * BS + BS]
      modifies bounce, disk
      ensures (ok <==> b.Fine?) && k == if ok || b.k > 0 then chunk else 0
      ensures Overlaid(old(disk[..]), disk[..], lba * BS + off, buf[at..at + k])
    {
      hide Overlaid;
      ghost var was, part, block := disk[..], buf[at..at + chunk], bounce[..];
      forall x | 0 <= x < chunk {
        bounce[off + x] := buf[at + x];
      }
      assert Overlaid(block, bounce[..], off, part) by {
        OverlaidIs(block, bounce[..], off, part);
      }
      ghost var n, full := 0, bounce[..];
      assert disk[..] == was;
      ok, n := Blocks(bounce, 0, lba, 1, true, b);
      k := if n == 1 then chunk else 0;
      if n == 1 {
        assert full[0..0 + n * BS] == full && buf[at..at + k] == part;
        OverlaidPart(was, disk[..], lba * BS, off, block, bounce[..], part);
      } else {
        assert full[0..0 + n * BS] == [];
        assert buf[at..at + k] == [];
        OverlaidEmpty(was, disk[..], lba * BS, lba * BS + off);
      }
    }

    /** ub_xfer: as many bytes as a flat array would move from the position on, or up to the first block
        transfer that fails; nothing else changes.  The bytes moved are the bytes reported, if and only if
        none failed or the failing one moved none of the access; Spill says how many it moved. */
    method Xfer(buf: array<Byte>, where: int, len: nat, write: bool, answers: seq<Answer>)
      returns (r: int, errno: Option<Errno>, ghost moved: nat, ghost met: Met)
      requires Valid() && buf != disk && buf != bounce && len <= buf.Length
      modifies buf, disk, bounce
      ensures r == -1 <==> errno.Some?
      ensures errno == Some(EROFS) <==> write && !wr
      ensures errno == Some(EINVAL) <==> !(write && !wr) && where < 0
      ensures (write && !wr) || where < 0 ==> buf[..] == old(buf[..]) && disk[..] == old(disk[..])
      ensures !(write && !wr) && where >= 0 ==>
        Progress(old(buf[..]), buf[..], old(disk[..]), disk[..], Reached(where), moved, write)
      ensures !(write && !wr) && where >= 0 ==> Reported(answers, blocks * BS, Reached(where), len, r, moved, met)
    {
      if write && !wr {
        return -1, Some(EROFS), 0, NoFailure;
      }
      if where < 0 {
        return -1, Some(EINVAL), 0, NoFailure;
      }
      r, moved, met := Loop(buf, where, len, write, answers);
      errno := if r < 0 then Some(EIO) else None;
    }

    // the loop of ub_xfer
    method Loop(buf: array<Byte>, where: nat, len: nat, write: bool, answers: seq<Answer>)
      returns (r: int, ghost moved: nat, ghost met: Met)
      requires Valid() && buf != disk && buf != bounce && len <= buf.Length
      modifies buf, disk, bounce
      ensures Progress(old(buf[..]), buf[..], old(disk[..]), disk[..], Reached(where), moved, write)
      ensures Reported(answers, blocks * BS, Reached(where), len, r, moved, met)
    {
      hide Moved, Overlaid, Progress, Reached, Flat, Spill, Turn;
      FlatBounds(blocks * BS, Reached(where), len);
      ghost var b0, d0, pos := buf[..], disk[..], Reached(where);
      ProgressNone(b0, d0, pos, write);
      var done: nat, j: nat := 0, 0;
      while done < len
        invariant done <= Flat(blocks * BS, pos, len) <= len
        invariant Progress(b0, buf[..], d0, disk[..], pos, done, write)
        invariant (done > 0 ==> j > 0) && forall i | 0 <= i < j && i < |answers| :: answers[i].Fine?
      {
        FlatMore(blocks * BS, pos, len, done);
        BlockOf(where, done, pos);
        var lba, off := (where + done) / BS % WORD, (where + done) % BS;
        InBlock(pos + done, lba, off);
        if lba >= blocks {
          break;
        }
        var a := if j < |answers| then answers[j] else Fine;
        var b := if j + 1 < |answers| then answers[j + 1] else Fine;
        ghost var b1, d1 := buf[..], disk[..];
        ghost var k;
        var ok, n, used;
        ok, n, used, k := Piece(buf, done, lba, off, len - done, write, a, b);
        FlatStep(blocks * BS, pos, len, done + n);
        ProgressMore(b0, b1, buf[..], d0, d1, disk[..], pos, done, k, write);
        if !ok {
          met := Failure(if a.Fine? then j + 1 else j, a.Fails? && !Whole(pos + done, len - done));
          return if done > 0 then done else -1, done + k, met;
        }
        done := done + n;
        j := j + used;
      }
      return done, done, NoFailure;
    }

    // one turn of the loop: whole blocks, or part of one
    method Piece(buf: array<Byte>, at: nat, lba: nat, off: nat, rest: nat, write: bool, a: Answer, b: Answer)
      returns (ok: bool, n: nat, used: nat, ghost k: nat)
      requires Valid() && buf != disk && buf != bounce && lba < blocks && off < BS && rest > 0
      requires at + rest <= buf.Length
      modifies bounce, if write then {disk} else {buf}
      ensures !ok ==> a.Fails? || (b.Fails? && write && !Whole(lba * BS + off, rest))
      ensures ok ==> a.Fine? && (used == 2 ==> b.Fine?) && k == n
      ensures 0 < n <= rest && lba * BS + off + n <= blocks * BS && k <= n && 1 <= used <= 2
      ensures var pos, bad := lba * BS + off, if a.Fails? then a else b;
        !ok ==> k == Spill(bad, a.Fails? && !Whole(pos, rest), blocks * BS, pos, rest)
      ensures Moved(old(buf[..]), buf[..], old(disk[..]), disk[..], at, lba * BS + off, k, write)
    {
      WholeBlocks(blocks, lba, off, rest);
      if off == 0 && rest >= BS {
        var m := Count(lba, rest);
        ok, k := Blocks(buf, at, lba, m, write, a);
        return ok, m * BS, 1, k * BS;
      }
      var chunk := if BS - off > rest then rest else BS - off;
      ok, k := Part(buf, at, lba, off, chunk, write, a, b);
      return ok, chunk, if write then 2 else 1, k;
    }

    // the whole blocks of one transfer: no more than fit a transfer or the unit
    method Count(lba: nat, rest: nat) returns (n: nat)
      requires Valid() && lba < blocks && rest >= BS
      ensures 0 < n && n * BS <= rest && n == Least(Least(rest / BS, UB_RWMAX / BS), blocks - lba)
    {
      n := rest / BS;
      if n > UB_RWMAX / BS {
        n := UB_RWMAX / BS;
      }
      if (lba + n) % WORD > blocks {
        n := blocks - lba;
      }
    }

    /** A read of two blocks whose one transfer fails after the first: nothing is reported, and the first
        block is in the buffer all the same. */
    method HalfRead(buf: array<Byte>)
      requires Valid() && blocks >= 2 && buf != disk && buf != bounce && buf.Length == 2 * BS
      modifies buf, disk, bounce
      ensures Progress(old(buf[..]), buf[..], old(disk[..]), disk[..], 0, BS, false)
    {
      hide Progress;
      var r, errno;
      ghost var moved, met;
      r, errno, moved, met := Xfer(buf, 0, 2 * BS, false, [Fails(1)]);
      HalfMoved(blocks, r, moved, met);
    }
  }
}
