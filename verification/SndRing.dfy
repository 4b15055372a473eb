/**
 The DMA sound ring: the chip plays it round and round, the clock tick blanks
 what has played, and write() fills it ahead of the play position.  A write
 sleeps with the tick running; what happens meanwhile is a script.  The device
 is opened once, but processes that share the open file may all be writing.
 */
module SndRing {
  import opened Basics
  import opened Claims
  import opened RingMath

  const RING := 0x1_0000
  const LEAD := 512
  const BOUNCE := 1024

  datatype Error = EINTR | EFAULT

  // what the chip is to play k bytes after the play position: silence, the latest f bytes written, silence
  function Expect(gap: nat, f: nat, written: seq<Byte>, k: nat): Byte
    requires f <= |written|
  {
    if gap <= k < gap + f then written[|written| - f + (k - gap)] else 0
  }

  // the ring m shows that from the play position c on
  ghost predicate Shows(m: seq<Byte>, c: nat, gap: nat, f: nat, written: seq<Byte>) {
    && |m| == RING && c < RING && f <= |written|
    && forall x | 0 <= x < RING :: m[x] == Expect(gap, f, written, Used(c, x, RING))
  }

  /** What the chip meets: the silence of the gap, then the bytes not yet played, oldest first, then
      silence until it is round again. */
  lemma PlaysInOrder(m: seq<Byte>, c: nat, gap: nat, f: nat, w: seq<Byte>, k: nat)
    requires Shows(m, c, gap, f, w) && gap + f <= RING - 2 && k < RING
    ensures k < gap ==> m[On(c, k, RING)] == 0
    ensures gap <= k < gap + f ==> m[On(c, k, RING)] == w[|w| - f + (k - gap)]
    ensures gap + f <= k ==> m[On(c, k, RING)] == 0
  {
  }

  // from an earlier position the same bytes are due later
  lemma ShowsBack(m: seq<Byte>, c: nat, p: nat, gap: nat, f: nat, w: seq<Byte>)
    requires Shows(m, c, gap, f, w) && p < RING && gap + f + Used(p, c, RING) <= RING - 2
    ensures Shows(m, p, gap + Used(p, c, RING), f, w)
  {
  }

  // the n bytes up to p blanked
  ghost predicate Blanked(m: seq<Byte>, m': seq<Byte>, c: nat, n: nat) {
    && |m| == |m'| == RING && c < RING
    && forall x | 0 <= x < RING :: m'[x] == if Used(c, x, RING) < n then 0 else m[x]
  }

  lemma BlankedNone(m: seq<Byte>, m': seq<Byte>, c: nat, n: nat)
    requires Blanked(m, m', c, n)
    ensures n == 0 ==> m' == m
  {
  }

  // played in the gap, in the data, or past it
  lemma ShowsPlayed(m: seq<Byte>, m': seq<Byte>, c: nat, p: nat, gap: nat, f: nat, w: seq<Byte>)
    requires Shows(m, c, gap, f, w) && p < RING && Blanked(m, m', c, Used(c, p, RING)) && gap + f <= RING - 2
    ensures Used(c, p, RING) <= gap ==> Shows(m', p, gap - Used(c, p, RING), f, w)
    ensures gap < Used(c, p, RING) <= gap + f ==> Shows(m', p, 0, gap + f - Used(c, p, RING), w)
    ensures Used(c, p, RING) > gap + f ==> forall g: nat :: Shows(m', p, g, 0, w)
  {
  }

  // more bytes after the ones not yet played
  lemma ShowsPut(m: seq<Byte>, m': seq<Byte>, c: nat, gap: nat, f: nat, w: seq<Byte>, buf: seq<Byte>)
    requires Shows(m, c, gap, f, w) && gap + f + |buf| <= RING - 2 && |m'| == RING
    requires forall x | 0 <= x < RING ::
      m'[x] == if Used(On(c, gap + f, RING), x, RING) < |buf| then buf[Used(On(c, gap + f, RING), x, RING)] else m[x]
    ensures Shows(m', c, gap, f + |buf|, w + buf)
  {
  }

  // what the ring accounts for
  datatype Counters = Counters(gap: nat, filled: nat, wpos: nat, underruns: nat)

  // n bytes have played: of the gap, of the data, or past it, when writing restarts a lead ahead
  ghost predicate Played(n: nat, was: Counters, now: Counters) {
    if n <= was.gap then now == was.(gap := was.gap - n)
    else if n <= was.gap + was.filled then now == was.(gap := 0, filled := was.gap + was.filled - n)
    else
      && now.filled == 0 && LEAD - 1 <= now.gap <= LEAD && now.wpos % 2 == 0
      && now.underruns == was.underruns + if was.filled > 0 then 1 else 0
  }

  lemma PlayedNone(was: Counters, now: Counters)
    requires Played(0, was, now)
    ensures now == was
  {
  }

  // what can happen while a write waits: a tick finds the chip at p, a signal, the user's bytes come in or fault
  datatype Move = Clock(p: nat) | Signal | Moved | Fault

  // how the sleep for room ends, or that it has not
  datatype Slept = Awake | Interrupted | Asleep

  // no tick finds the play position gone back
  predicate Forward(c: nat, moves: seq<Move>)
    requires c < RING
    decreases |moves|
  {
    moves == [] ||
    match moves[0]
    case Clock(p) => p < RING && Used(c, p, RING) <= RING / 2 && Forward(p, moves[1..])
    case _ => Forward(c, moves[1..])
  }

  // the clock ticks among the events never find the play position gone back
  predicate Onward(c: nat, events: seq<Event<nat>>)
    requires c < RING
    decreases |events|
  {
    events == [] ||
    match events[0]
    case Other(p) => p < RING && Used(c, p, RING) <= RING / 2 && Onward(p, events[1..])
    case _ => Onward(c, events[1..])
  }

  lemma {:induction false} OnwardStep(c: nat, events: seq<Event<nat>>)
    requires c < RING && events != [] && Onward(c, events)
    ensures events[0].Other? ==> events[0].what < RING && Used(c, events[0].what, RING) <= RING / 2
    ensures events[0].Other? ==> Onward(events[0].what, events[1..])
    ensures !events[0].Other? ==> Onward(c, events[1..])
  {
  }

  class Sound {
    const ring: array<Byte>
    var wpos: nat
    var cpos: nat
    var filled: nat
    var gap: nat
    var chained: bool
    var unchain_at: nat
    var underruns: nat
    var repeats: nat
    // everything written since the start
    ghost var written: seq<Byte>

    predicate Counts()
      reads this
    {
      cpos < RING && wpos < RING && gap + filled <= RING - 2 && wpos == On(cpos, gap + filled, RING)
    }

    function Now(): Counters
      reads this
    {
      Counters(gap, filled, wpos, underruns)
    }

    ghost predicate Valid()
      reads this, ring
    {
      ring.Length == RING && Counts() && Shows(ring[..], cpos, gap, filled, written)
    }

    // bytes a write can put in
    function Room(): int
      reads this
    {
      RING - 2 - gap - filled
    }

    predicate WentBack(p: nat)
      requires cpos < RING && p < RING
      reads this
    {
      (chained || unchain_at != 0) && Used(cpos, p, RING) > RING / 2
    }

    /** snd_start: silence, and the write position ahead of the play position. */
    method Start()
      requires ring.Length == RING
      modifies this, ring
      ensures Valid() && written == [] && filled == 0 && gap == LEAD && chained && unchain_at == 0
    {
      forall i | 0 <= i < RING {
        ring[i] := 0;
      }
      cpos, filled := 0, 0;
      wpos, gap := LEAD, LEAD;
      unchain_at, chained := 0, true;
      written := [];
    }

    // n bytes from the play position on made silent
    method Blank(n: nat)
      requires ring.Length == RING && cpos < RING && n < RING
      modifies ring
      ensures Blanked(old(ring[..]), ring[..], cpos, n)
    {
      var i := 0;
      while i < n
        invariant i <= n
        invariant forall x | 0 <= x < RING :: ring[x] == if Used(cpos, x, RING) < i then 0 else old(ring[x])
      {
        ring[On(cpos, i, RING)] := 0;
        i := i + 1;
      }
    }

    /** snd_tick: what has played is silent, the counters follow, and the bytes not yet played are still
        the latest ones written, in order, with silence everywhere else.  When the play position has gone
        back, that holds if and only if the bytes to play again leave the ring its two spare bytes. */
    method Tick(p: nat, fallback: Option<nat>)
      requires Valid() && p < RING
      modifies this, ring
      ensures Valid() <==> (old(WentBack(p)) ==> old(gap + filled) + Used(p, old(cpos), RING) <= RING - 2)
      ensures written == old(written) && cpos == p
      ensures old(WentBack(p)) ==> Now() == old(Now()).(gap := old(gap) + Used(p, old(cpos), RING))
      ensures !old(WentBack(p)) ==> Played(Used(old(cpos), p, RING), old(Now()), Now())
      ensures repeats == old(repeats) + if old(WentBack(p)) then 1 else 0
      ensures chained <==> old(chained) && fallback.None?
      ensures unchain_at == if old(chained) && fallback.Some? then fallback.value
                            else if p >= old(unchain_at) then 0 else old(unchain_at)
    {
      hide Shows, Used, On, Played;
      var back := (chained || unchain_at != 0) && Used(cpos, p, RING) > RING / 2;
      if back {
        repeats := repeats + 1;
        GoBack(p);
      }
      if unchain_at != 0 && p >= unchain_at {
        unchain_at := 0;
      }
      ghost var was, good := Now(), Valid();
      Advance(p);
      if back && good {
        PlayedNone(was, Now());
      }
      if chained && fallback.Some? {
        chained := false;
        unchain_at := fallback.value;
      }
    }

    // a tick while a write waits
    method Pass(p: nat)
      requires Valid() && p < RING && Used(cpos, p, RING) <= RING / 2
      modifies this, ring
      ensures Valid() && written == old(written) && cpos == p
      ensures Room() >= old(Room()) || Room() >= RING - 2 - LEAD
    {
      Tick(p, None);
    }

    // a block played again: its bytes are silence to wait out
    method GoBack(p: nat)
      requires Valid() && p < RING
      modifies this`gap, this`cpos
      ensures Valid() <==> old(gap + filled) + Used(p, old(cpos), RING) <= RING - 2
      ensures cpos == p && gap == old(gap) + Used(p, old(cpos), RING)
    {
      hide Shows;
      if gap + filled + Used(p, cpos, RING) <= RING - 2 {
        ShowsBack(ring[..], cpos, p, gap, filled, written);
      }
      gap := gap + Used(p, cpos, RING);
      cpos := p;
    }

    // the bytes up to p have played
    method Advance(p: nat)
      requires ring.Length == RING && p < RING && cpos < RING && (Valid() || p == cpos)
      modifies this`gap, this`cpos, this`filled, this`wpos, this`underruns, ring
      ensures old(Valid()) ==> Valid() && Played(Used(old(cpos), p, RING), old(Now()), Now())
      ensures p == old(cpos) ==> Now() == old(Now()) && (Valid() ==> old(Valid()))
      ensures cpos == p
    {
      hide Shows, On;
      var n := Used(cpos, p, RING);
      ghost var was := ring[..];
      Blank(n);
      BlankedNone(was, ring[..], cpos, n);
      if Valid() || n > 0 {
        ShowsPlayed(was, ring[..], cpos, p, gap, filled, written);
      }
      if n > gap + filled {
        if filled != 0 {
          underruns := underruns + 1;
        }
        wpos := On(p, LEAD, RING) / 2 * 2;
        gap := Used(p, wpos, RING);
        filled := 0;
      } else if n > gap {
        filled := filled - (n - gap);
        gap := 0;
      } else {
        gap := gap - n;
      }
      cpos := p;
    }

    // n bytes into the ring at the write position, in at most two pieces
    method Copy(buf: seq<Byte>)
      requires ring.Length == RING && wpos < RING && |buf| < RING
      modifies this`wpos, ring
      ensures wpos == On(old(wpos), |buf|, RING)
      ensures forall x | 0 <= x < RING ::
        ring[x] == if Used(old(wpos), x, RING) < |buf| then buf[Used(old(wpos), x, RING)] else old(ring[x])
    {
      hide Used, On;
      var n, i, w := |buf|, 0, wpos;
      while i < n
        invariant i <= n && wpos == On(w, i, RING)
        invariant forall x | 0 <= x < RING ::
          ring[x] == if Used(w, x, RING) < i then buf[Used(w, x, RING)] else old(ring[x])
      {
        var chunk := if RING - wpos < n - i then RING - wpos else n - i;
        var at := wpos;
        forall k | 0 <= k < chunk {
          ring[at + k] := buf[i + k];
        }
        wpos := On(wpos, chunk, RING);
        i := i + chunk;
      }
    }

    /** The copy of a write.  It does not look at the room again: what the ring promises survives if and
        only if there is room for it. */
    method Put(buf: seq<Byte>)
      requires ring.Length == RING && wpos < RING && |buf| < RING
      modifies this`wpos, this`filled, this`written, ring
      ensures old(Valid()) ==> (Valid() <==> |buf| <= old(Room()))
      ensures written == old(written) + buf && filled == old(filled) + |buf| && wpos == On(old(wpos), |buf|, RING)
      ensures forall x | 0 <= x < RING ::
        ring[x] == if Used(old(wpos), x, RING) < |buf| then buf[Used(old(wpos), x, RING)] else old(ring[x])
    {
      hide Shows, Used;
      ghost var was := ring[..];
      Copy(buf);
      if old(Valid()) && |buf| <= Room() {
        ShowsPut(was, ring[..], cpos, gap, filled, written, buf);
      }
      filled := filled + |buf|;
      written := written + buf;
    }

    /** The copies of several writes that have all found room, before the next tick: what the ring promises
        survives them if and only if there is room for all of them together. */
    method PutAll(bufs: seq<seq<Byte>>)
      requires Valid() && forall b | b in bufs :: |b| <= BOUNCE
      modifies this`wpos, this`filled, this`written, ring
      ensures Valid() <==> Sum(bufs) <= old(Room())
      ensures written == old(written) + Join(bufs)
    {
      hide Shows, Used, On;
      var i := 0;
      assert bufs[..0] == [];
      while i < |bufs|
        invariant i <= |bufs| && wpos < RING
        invariant filled == old(filled) + Sum(bufs[..i]) && (Valid() <==> Sum(bufs[..i]) <= old(Room()))
        invariant written == old(written) + Join(bufs[..i])
      {
        SumMore(bufs, i);
        Put(bufs[i]);
        i := i + 1;
      }
      assert bufs[..i] == bufs;
    }

    /** Two processes, each with a piece of 1024 bytes and room for 1024: both find room, and the second
        copy goes over the byte the chip plays next. */
    method TwoWriters(b1: seq<Byte>, b2: seq<Byte>)
      requires Valid() && Room() == 1024 && |b1| == |b2| == 1024
      modifies this`wpos, this`filled, this`written, ring
      ensures !Valid() && ring[cpos] == b2[2]
    {
      hide Shows;
      Put(b1);
      Put(b2);
    }

    /** Processes that write at the same time, with the tick running: a piece is claimed when there is room
        for it and copied in any order later.  The run goes on while there is room for all that is claimed,
        and the ring holds what it should; it stops where there no longer is, and there PutAll breaks it.
        With one writer at a time it never stops. */
    method Writers(events: seq<Event<nat>>) returns (claims: seq<seq<Byte>>, fits: bool, ghost copied: seq<seq<Byte>>)
      requires Valid() && Onward(cpos, events)
      modifies this, ring
      ensures Valid() && (fits <==> Sum(claims) <= Room()) && forall b | b in claims :: |b| <= BOUNCE
      ensures written == old(written) + Join(copied)
      ensures Exclusive(false, events) ==> fits
    {
      hide Shows, Used, On, Onward, Exclusive, Sum, Join;
      SumNone();
      claims, fits, copied := [], true, [];
      var j := 0;
      ghost var busy, alone := false, Exclusive(false, events);
      assert events[0..] == events;
      while fits && j < |events|
        invariant 0 <= j <= |events| && Valid() && Onward(cpos, events[j..])
        invariant (fits <==> Sum(claims) <= Room()) && forall b | b in claims :: |b| <= BOUNCE
        invariant written == old(written) + Join(copied)
        invariant alone ==> fits && Exclusive(busy, events[j..]) && (if busy then |claims| <= 1 else claims == [])
        decreases |events| - j
      {
        assert events[j..][1..] == events[j + 1..];
        OnwardStep(cpos, events[j..]);
        if alone {
          ExclusiveStep(busy, events[j..]);
        }
        match events[j] {
          case Other(p) =>
            Pass(p);
          case Claim(buf) =>
            busy := true;
            if |buf| <= BOUNCE && |buf| <= Room() {
              SumLast(claims, buf);
              claims := claims + [buf];
            }
          case Finish(k, _) =>
            busy := false;
            if k < |claims| {
              SumDrop(claims, k);
              SumLast(copied, claims[k]);
              copied := copied + [claims[k]];
              Put(claims[k]);
              claims := claims[..k] + claims[k + 1..];
            }
        }
        assert alone ==> Sum(claims) <= BOUNCE by {
          SumOne(claims, BOUNCE);
        }
        fits := Sum(claims) <= Room();
        j := j + 1;
      }
    }

    // what a write moves at once, of so many bytes left
    function Piece(left: nat): nat {
      if left < BOUNCE then left else BOUNCE
    }

    // sleep until there is room for n bytes, or a signal
    method AwaitRoom(n: nat, moves: seq<Move>, j0: nat, pending: bool) returns (r: Slept, j: nat)
      requires Valid() && j0 <= |moves| && Forward(cpos, moves[j0..])
      modifies this, ring
      ensures Valid() && written == old(written) && j <= |moves| && Forward(cpos, moves[j..])
      ensures r.Awake? <==> Room() >= n
      ensures r.Interrupted? ==> pending || Signal in moves
      ensures !r.Interrupted? ==> j0 <= j && forall k | j0 <= k < j :: !moves[k].Signal?
      ensures r.Asleep? ==> !pending && j == |moves|
      ensures old(Room()) >= n ==> r.Awake?
    {
      hide Shows, Used, On;
      j := j0;
      while Room() < n
        invariant old(Room()) >= n ==> Room() == old(Room())
        invariant Valid() && written == old(written) && j <= |moves| && Forward(cpos, moves[j..])
        invariant j0 <= j && forall k | j0 <= k < j :: !moves[k].Signal?
        decreases |moves| - j
      {
        if pending || (j < |moves| && moves[j].Signal?) {
          return Interrupted, j;
        }
        if j == |moves| {
          return Asleep, j;
        }
        assert moves[j..][1..] == moves[j + 1..];
        if moves[j].Clock? {
          Pass(moves[j].p);
        }
        j := j + 1;
      }
      r := Awake;
    }

    // the user's bytes taken while the tick goes on: the room found stays
    method FromUser(n: nat, moves: seq<Move>, j0: nat, was: bool) returns (ok: bool, j: nat, pending: bool)
      requires Valid() && j0 <= |moves| && Forward(cpos, moves[j0..]) && n <= Room() && n <= BOUNCE
      requires was ==> Signal in moves
      modifies this, ring
      ensures Valid() && written == old(written) && j <= |moves| && Forward(cpos, moves[j..]) && n <= Room()
      ensures !ok ==> Fault in moves
      ensures pending ==> Signal in moves
      ensures j0 <= j && (!pending ==> !was && forall k | j0 <= k < j :: !moves[k].Signal?)
    {
      hide Shows, Used, On;
      j, pending := j0, was;
      while j < |moves| && !moves[j].Moved? && !moves[j].Fault?
        invariant Valid() && written == old(written) && n <= Room()
        invariant j <= |moves| && Forward(cpos, moves[j..]) && (pending ==> Signal in moves)
        invariant j0 <= j && (!pending ==> !was && forall k | j0 <= k < j :: !moves[k].Signal?)
      {
        assert moves[j..][1..] == moves[j + 1..];
        if moves[j].Clock? {
          Pass(moves[j].p);
        } else {
          assert moves[j] in moves && moves[j].Signal?;
          pending := true;
        }
        j := j + 1;
      }
      if j < |moves| {
        if moves[j].Fault? {
          assert moves[j] in moves;
          return false, j, pending;
        }
        assert moves[j..][1..] == moves[j + 1..];
        j := j + 1;
      }
      ok := true;
    }

    /** sndwrite: on success all of the data is written; on an error a front part of it is, and while the
        write sleeps for room too; in every case the ring holds what it should.  A signal stops it only where
        it would sleep. */
    method Write(data: seq<Byte>, moves: seq<Move>) returns (err: Option<Error>, done: nat, asleep: bool)
      requires Valid() && Forward(cpos, moves)
      modifies this, ring
      ensures Valid() && done <= |data| && written == old(written) + data[..done]
      ensures err.None? && !asleep ==> done == |data|
      ensures asleep ==> err.None? && Room() < Piece(|data| - done) && Signal !in moves
      ensures err == Some(EINTR) ==> Signal in moves && Room() < Piece(|data| - done)
      ensures err == Some(EFAULT) ==> Fault in moves && Room() >= Piece(|data| - done) > 0
      ensures |data| <= BOUNCE && |data| <= old(Room()) && Fault !in moves ==> err.None? && !asleep
    {
      hide Shows, Used, On, Forward;
      done, err, asleep := 0, None, false;
      var j, pending := 0, false;
      assert moves[0..] == moves;
      while done < |data|
        invariant Valid() && done <= |data| && written == old(written) + data[..done]
        invariant done == 0 ==> Room() == old(Room())
        invariant |data| <= BOUNCE ==> done == 0 || done == |data|
        invariant 0 <= j <= |moves| && Forward(cpos, moves[j..]) && (pending ==> Signal in moves)
        invariant !pending ==> forall k | 0 <= k < j :: !moves[k].Signal?
      {
        var n := Piece(|data| - done);
        var slept, ok;
        slept, j := AwaitRoom(n, moves, j, pending);
        if slept.Interrupted? {
          return Some(EINTR), done, false;
        }
        if slept.Asleep? {
          return None, done, true;
        }
        ok, j, pending := FromUser(n, moves, j, pending);
        if !ok {
          return Some(EFAULT), done, false;
        }
        assert data[..done] + data[done..done + n] == data[..done + n];
        Put(data[done..done + n]);
        done := done + n;
      }
      assert data[..done] == data;
    }
  }
}
