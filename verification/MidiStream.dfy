/**
 The MIDI output queue: a ring emptied by the port's transmit interrupt, by the
 clock, and by the end of a timed wait.  The log records each byte with the tick
 it went out and each wait with the tick it was met, since the last open or
 flush.  The transmit interrupt comes only while it is switched on, and a
 timeout never early.  Processes that share the open file may all be writing.
 */
module MidiStream {
  import opened Basics
  import opened Claims
  import opened RingMath

  const RING := 8192
  const BOUNCE := 512
  const WAIT: Byte := 0xF9
  const SNAP_TICKS := 4

  datatype Error = EINTR | EFAULT

  // a byte sent at a tick; a wait met at a tick, and whether it restarted the timeline
  datatype Token = Data(b: Byte, at: int) | Pause(count: Byte, now: int, restart: bool)

  // ----- the stream

  function TokenBytes(t: Token): seq<Byte> {
    match t
    case Data(b, _) => [b]
    case Pause(n, _, _) => [WAIT, n]
  }

  function Flat(log: seq<Token>): seq<Byte> {
    if log == [] then [] else Flat(log[..|log|-1]) + TokenBytes(log[|log|-1])
  }

  // the bytes that went out
  function Sent(log: seq<Token>): seq<Byte> {
    if log == [] then []
    else Sent(log[..|log|-1]) + if log[|log|-1].Data? then [log[|log|-1].b] else []
  }

  // what a call has added to the log was sent or met at tick t
  ghost predicate Stamped(log0: seq<Token>, log: seq<Token>, t: int) {
    && log0 <= log
    && forall k | |log0| <= k < |log| :: t == if log[k].Data? then log[k].at else log[k].now
  }

  lemma {:induction false} StampedMore(log0: seq<Token>, log: seq<Token>, k: Token, t: int)
    requires Stamped(log0, log, t) && t == if k.Data? then k.at else k.now
    ensures Stamped(log0, log + [k], t)
    ensures Sent(log + [k]) == Sent(log) + if k.Data? then [k.b] else []
  {
    assert (log + [k])[..|log|] == log;
  }

  lemma StampedNone(log: seq<Token>, t: int)
    ensures Stamped(log, log, t)
  {
  }

  // nothing that could be sent is queued: it is empty, or a wait whose count is to come
  predicate Spent(timed: bool, queue: seq<Byte>) {
    queue == [] || (timed && queue == [WAIT])
  }

  // a written stream without its waits
  function Strip(timed: bool, s: seq<Byte>): seq<Byte> {
    if s == [] then []
    else if timed && s[0] == WAIT then (if |s| < 2 then [] else Strip(timed, s[2..]))
    else [s[0]] + Strip(timed, s[1..])
  }

  // waits only on the timed device, and no wait command sent as data there
  predicate Spelled(timed: bool, log: seq<Token>) {
    forall k | 0 <= k < |log| :: if log[k].Data? then !timed || log[k].b != WAIT else timed
  }

  /** What has gone out is a front part of the written stream without its waits, however it was split
      into writes. */
  lemma {:induction false} SentIsPrefix(timed: bool, log: seq<Token>, queue: seq<Byte>)
    requires Spelled(timed, log)
    ensures Strip(timed, Flat(log) + queue) == Sent(log) + Strip(timed, queue)
  {
    if log == [] {
      assert Flat(log) + queue == queue;
    } else {
      var last := log[|log|-1];
      var rest := TokenBytes(last) + queue;
      assert Flat(log) + queue == Flat(log[..|log|-1]) + rest;
      SentIsPrefix(timed, log[..|log|-1], rest);
      match last
      case Data(b, _) =>
        assert rest[1..] == queue;
      case Pause(n, _, _) =>
        assert rest[2..] == queue;
    }
  }

  // ----- the timeline

  // as the driver computes it
  function MsToTicks(hertz: nat, ms: nat): nat {
    (ms / 1000) * hertz + ((ms % 1000) * hertz) / 1000
  }

  function Ticks(hertz: nat, ms: nat): nat {
    hertz * ms / 1000
  }

  /** The two divisions lose nothing: it is the whole product divided once. */
  lemma TicksExact(hertz: nat, ms: nat)
    ensures MsToTicks(hertz, ms) == Ticks(hertz, ms)
  {
    var q, r := ms / 1000, ms % 1000;
    var z := r * hertz;
    assert hertz * ms == 1000 * (q * hertz + z / 1000) + z % 1000 by {
      assert ms == 1000 * q + r;
      assert hertz * (1000 * q + r) == 1000 * (q * hertz) + r * hertz;
    }
    ModIs(hertz * ms, 1000, q * hertz + z / 1000, z % 1000);
  }

  function Origin(begun: int, log: seq<Token>): int {
    if log == [] then begun
    else if log[|log|-1].Pause? && log[|log|-1].restart then log[|log|-1].now
    else Origin(begun, log[..|log|-1])
  }

  // the waits since the timeline began, in ms
  function Total(log: seq<Token>): nat {
    if log == [] then 0
    else
      var last := log[|log|-1];
      if last.Data? then Total(log[..|log|-1])
      else (if last.restart then 0 else Total(log[..|log|-1])) + last.count as nat
  }

  // when the bytes after the log are due
  function Due(hertz: nat, begun: int, log: seq<Token>): int {
    Origin(begun, log) + Ticks(hertz, Total(log))
  }

  // the timeline restarts exactly when it has fallen too far behind, and no byte goes out before it is due
  ghost predicate Timely(hertz: nat, begun: int, log: seq<Token>) {
    forall k {:trigger log[k]} | 0 <= k < |log| ::
      var due := Due(hertz, begun, log[..k]);
      if log[k].Data? then log[k].at >= due else log[k].restart <==> due + SNAP_TICKS < log[k].now
  }

  lemma {:induction false} DueGrows(hertz: nat, begun: int, log: seq<Token>, i: nat)
    requires Timely(hertz, begun, log) && i <= |log|
    ensures Due(hertz, begun, log[..i]) <= Due(hertz, begun, log)
  {
    if i == |log| {
      assert log[..i] == log;
    } else {
      var front, last := log[..|log|-1], log[|log|-1];
      assert forall k | 0 <= k < |front| :: front[k] == log[k] && front[..k] == log[..k];
      assert front[..i] == log[..i];
      DueGrows(hertz, begun, front, i);
      if last.Pause? && !last.restart {
        Grows(hertz, Total(front), Total(log));
      }
    }
  }

  lemma Grows(h: nat, a: nat, b: nat)
    requires a <= b
    ensures h * a / 1000 <= h * b / 1000
  {
    assert h * a <= h * b;
  }

  /** A byte after a wait never goes out before the wait's end: the tick the timeline began plus all the
      waits since, rounded once. */
  lemma {:induction false} NotBeforeDue(hertz: nat, begun: int, log: seq<Token>, m: nat, k: nat)
    requires Timely(hertz, begun, log) && m < k < |log| && log[m].Pause? && log[k].Data?
    ensures log[k].at >= Origin(begun, log[..m + 1]) + hertz * Total(log[..m + 1]) / 1000
  {
    var front := log[..k];
    assert forall i | 0 <= i < |front| :: front[i] == log[i] && front[..i] == log[..i];
    DueGrows(hertz, begun, front, m + 1);
    assert front[..m + 1] == log[..m + 1];
  }

  // one more token at the end of the log
  lemma {:induction false} LogMore(hertz: nat, begun: int, timed: bool, log: seq<Token>, t: Token)
    requires Timely(hertz, begun, log) && Spelled(timed, log)
    requires if t.Data? then !timed || t.b != WAIT else timed
    requires var due := Due(hertz, begun, log);
      if t.Data? then t.at >= due else t.restart <==> due + SNAP_TICKS < t.now
    ensures Timely(hertz, begun, log + [t]) && Spelled(timed, log + [t])
    ensures Flat(log + [t]) == Flat(log) + TokenBytes(t)
    ensures Origin(begun, log + [t]) == if t.Pause? && t.restart then t.now else Origin(begun, log)
    ensures Total(log + [t]) ==
      if t.Data? then Total(log) else (if t.restart then 0 else Total(log)) + t.count as nat
  {
    var more := log + [t];
    assert more[..|more|-1] == log;
    forall k | 0 <= k < |more| ensures more[..k] == if k < |log| then log[..k] else log {
    }
  }

  // ----- the ring

  // the ring holds the queue from head on
  ghost predicate Holds(m: seq<Byte>, head: nat, tail: nat, queue: seq<Byte>) {
    && |m| == RING && head < RING && tail < RING && Used(head, tail, RING) == |queue|
    && forall x | 0 <= x < RING && Used(head, x, RING) < |queue| :: m[x] == queue[Used(head, x, RING)]
  }

  lemma HeldRoom(m: seq<Byte>, head: nat, tail: nat, queue: seq<Byte>)
    requires head < RING && tail < RING
    ensures Holds(m, head, tail, queue) ==> |queue| == Used(head, tail, RING) <= RING - 1
  {
  }

  // bytes copied in at the tail are held exactly when they do not come round to the head
  lemma HeldAll(m: seq<Byte>, m': seq<Byte>, head: nat, tail: nat, queue: seq<Byte>, buf: seq<Byte>)
    requires |m| == |m'| == RING && head < RING && tail < RING && |buf| <= RING
    requires forall x | 0 <= x < RING :: m'[x] == if Used(tail, x, RING) < |buf| then buf[Used(tail, x, RING)] else m[x]
    ensures Holds(m, head, tail, queue) ==>
      (Holds(m', head, On(tail, |buf|, RING), queue + buf) <==> |buf| <= RING - 1 - Used(head, tail, RING))
  {
  }

  // what happens while a write sleeps; ready: how many bytes the port takes then
  datatype Move =
    | Clock(ticks: nat, ready: nat) | Intr(ready: nat) | Wake(ready: nat)
    | Signal | Moved(ready: nat) | Fault

  // the ticks that go by, and the bytes the port is ready for
  function Ticked(moves: seq<Move>): nat {
    if moves == [] then 0
    else Ticked(moves[..|moves|-1]) + if moves[|moves|-1].Clock? then moves[|moves|-1].ticks else 0
  }

  function Readied(moves: seq<Move>): nat {
    if moves == [] then 0
    else
      var m := moves[|moves|-1];
      Readied(moves[..|moves|-1]) + if m.Signal? || m.Fault? then 0 else m.ready
  }

  lemma MovesNone()
    ensures Ticked([]) == Readied([]) == 0
  {
  }

  lemma {:induction false} MovesMore(moves: seq<Move>, m: Move)
    ensures Ticked(moves + [m]) == Ticked(moves) + if m.Clock? then m.ticks else 0
    ensures Readied(moves + [m]) == Readied(moves) + if m.Signal? || m.Fault? then 0 else m.ready
  {
    assert (moves + [m])[..|moves|] == moves;
  }

  // how the sleep for room ends, or that it has not
  datatype Slept = Awake | Interrupted | Asleep

  class Midi {
    const hertz: nat
    const ring: array<Byte>
    var timed: bool
    var head: nat
    var tail: nat
    var sending: bool
    var waiting: bool
    var start: int
    var due_ms: nat
    var due: int
    var lbolt: int
    // since the last open or flush: when it was, what happened, what is queued
    ghost var begun: int
    ghost var log: seq<Token>
    ghost var queue: seq<Byte>

    ghost predicate Valid()
      reads this, ring
    {
      && ring.Length == RING && head < RING && tail < RING && Holds(ring[..], head, tail, queue)
      && Spelled(timed, log) && Timely(hertz, begun, log)
      && start == Origin(begun, log) && due_ms == Total(log) && due == Due(hertz, begun, log)
      && (if waiting then !sending else due <= lbolt)
    }

    // bytes never sit in the queue with nothing to send them, but for a wait whose count is to come
    ghost predicate Going()
      reads this
    {
      head == tail || sending || waiting || (timed && queue == [WAIT])
    }

    /** How the sending of bytes ends, with the port ready for so many: nothing is left that could go and
        the port is quiet, or a wait is not over yet, or data is next and the port has taken all it could. */
    ghost predicate Served(log0: seq<Token>, ready: nat)
      reads this
    {
      && Stamped(log0, log, lbolt) && |Sent(log)| <= |Sent(log0)| + ready
      && (   (Spent(timed, queue) && !sending && !waiting)
          || (waiting && !sending && due > lbolt)
          || (queue != [] && !(timed && queue[0] == WAIT) && sending && !waiting
              && |Sent(log)| == |Sent(log0)| + ready))
    }

    ghost function Written(): seq<Byte>
      reads this
    {
      Flat(log) + queue
    }

    method Open(minor: nat)
      requires minor < 2 && ring.Length == RING
      modifies this
      ensures Valid() && Going() && timed == (minor == 1) && Written() == [] && log == []
      ensures lbolt == old(lbolt)
    {
      timed := minor == 1;
      head, tail := 0, 0;
      sending, waiting := false, false;
      start, due_ms, due := lbolt, 0, lbolt;
      begun, log, queue := lbolt, [], [];
    }

    /** midi_kick: what can go now goes, nothing is lost or reordered, and whatever stays behind has
        something that will send it. */
    method Kick(ready: nat)
      requires Valid() && !waiting
      modifies this
      ensures Valid() && Going() && Written() == old(Written()) && |queue| <= |old(queue)|
      ensures old(log) <= log && timed == old(timed) && lbolt == old(lbolt) && begun == old(begun)
      ensures Served(old(log), ready)
      ensures ready > 0 && !Spent(timed, old(queue)) ==> |queue| < |old(queue)|
    {
      hide Holds, Timely, Spelled, Flat, Origin, Total, Due, Stamped, Sent;
      var free := ready;
      StampedNone(log, lbolt);
      while true
        invariant Stamped(old(log), log, lbolt) && |Sent(log)| + free == |Sent(old(log))| + ready
        invariant (queue == old(queue) && free == ready) || |queue| < |old(queue)|
        invariant Valid() && !waiting && Written() == old(Written()) && |queue| <= |old(queue)|
        invariant old(log) <= log && timed == old(timed) && lbolt == old(lbolt) && begun == old(begun)
        decreases |queue|
      {
        QueueFront(ring[..], head, tail, queue);
        if head == tail {
          sending := false;
          return;
        }
        var b := ring[head];
        if timed && b == WAIT {
          if Used(head, tail, RING) < 2 {
            sending := false;
            assert queue == [WAIT];
            return;
          }
          ghost var was := log;
          var later := TakeWait();
          StampedMore(old(log), was, log[|was|], lbolt);
          if later {
            return;
          }
          continue;
        }
        if free == 0 {
          sending := true;
          return;
        }
        free := free - 1;
        ghost var was := log;
        SendByte();
        StampedMore(old(log), was, log[|was|], lbolt);
      }
    }

    // a wait and its count met: when it is not over yet, its timeout is set
    method TakeWait() returns (later: bool)
      requires Valid() && !waiting && timed && |queue| >= 2 && head != tail && ring[head] == WAIT
      modifies this
      ensures Valid() && Written() == old(Written()) && queue == old(queue)[2..] && (later <==> waiting)
      ensures log == old(log) + [Pause(old(queue)[1], lbolt, old(due) + SNAP_TICKS < lbolt)]
      ensures due == if old(due) + SNAP_TICKS < lbolt then lbolt + Ticks(hertz, old(queue)[1])
                     else old(start) + Ticks(hertz, old(due_ms) + old(queue)[1])
      ensures later <==> due > lbolt
      ensures timed == old(timed) && lbolt == old(lbolt) && begun == old(begun)
    {
      hide Holds, Timely, Spelled, Flat, Origin, Total, Due, MsToTicks, Ticks;
      QueueFront(ring[..], head, tail, queue);
      var now := lbolt;
      WaitMet(hertz, begun, timed, ring[..], head, tail, queue, log, now);
      var snap := due + SNAP_TICKS < now;
      var n := ring[On(head, 1, RING)];
      if snap {
        start, due_ms := now, 0;
      }
      due_ms := due_ms + n;
      due := start + MsToTicks(hertz, due_ms);
      TicksExact(hertz, due_ms);
      head := On(head, 2, RING);
      log, queue := log + [Pause(n, now, snap)], queue[2..];
      later := due > now;
      if later {
        sending := false;
        waiting := true;
      }
    }

    // a byte to the port
    method SendByte()
      requires Valid() && !waiting && head != tail && (timed ==> ring[head] != WAIT)
      modifies this
      ensures Valid() && Written() == old(Written()) && queue == old(queue)[1..] && !waiting && sending
      ensures log == old(log) + [Data(old(queue)[0], lbolt)] && old(queue) != []
      ensures timed == old(timed) && lbolt == old(lbolt) && begun == old(begun)
    {
      hide Holds, Timely, Spelled, Flat, Origin, Total, Due;
      QueueFront(ring[..], head, tail, queue);
      var b := ring[head];
      TookOne(ring[..], head, tail, queue, log);
      LogMore(hertz, begun, timed, log, Data(b, lbolt));
      DueIs(hertz, begun, log + [Data(b, lbolt)]);
      DueIs(hertz, begun, log);
      head := On(head, 1, RING);
      log, queue := log + [Data(b, lbolt)], queue[1..];
      sending := true;
    }

    /** midi_wake, at the tick its timeout asked for or later. */
    method WakeUp(ready: nat)
      requires Valid() && Going() && waiting && lbolt >= due
      modifies this
      ensures Valid() && Going() && Written() == old(Written()) && |queue| <= |old(queue)|
      ensures old(log) <= log && timed == old(timed) && lbolt == old(lbolt) && begun == old(begun)
      ensures Served(old(log), ready)
      ensures ready > 0 && !Spent(timed, old(queue)) ==> |queue| < |old(queue)|
    {
      hide Sent, Stamped;
      waiting := false;
      Kick(ready);
    }

    // the clock goes on, and the tick looks for a lost edge
    method Tick(ticks: nat, ready: nat)
      requires Valid() && Going()
      modifies this
      ensures Valid() && Going() && Written() == old(Written()) && |queue| <= |old(queue)|
      ensures old(log) <= log && timed == old(timed) && lbolt == old(lbolt) + ticks && begun == old(begun)
      ensures old(sending || waiting) ==> queue == old(queue) && log == old(log)
      ensures due == old(due) || !old(sending || waiting)
      ensures sending == old(sending) || !old(sending || waiting)
      ensures waiting == old(waiting) || !old(sending || waiting)
    {
      lbolt := lbolt + ticks;
      if head != tail && !sending && !waiting {
        Kick(ready);
      }
    }

    // what may happen to a sleeping writer
    method Happen(m: Move)
      requires Valid() && Going()
      modifies this
      ensures Valid() && Going() && Written() == old(Written()) && |queue| <= |old(queue)|
      ensures old(log) <= log && timed == old(timed) && lbolt >= old(lbolt) && begun == old(begun)
      ensures m.Intr? && old(sending) ==> Served(old(log), m.ready)
      ensures m.Wake? && old(waiting && lbolt >= due) ==> Served(old(log), m.ready)
      ensures (m.Intr? && old(sending)) || (m.Wake? && old(waiting && lbolt >= due)) ==>
        m.ready > 0 && !Spent(timed, old(queue)) ==> |queue| < |old(queue)|
      ensures m.Clock? ==> lbolt == old(lbolt) + m.ticks
      ensures if m.Clock? then old(waiting) ==> waiting && due == old(due) && queue == old(queue) && log == old(log)
              else lbolt == old(lbolt)
      ensures m.Intr? || m.Wake? ==> |Sent(log)| <= |Sent(old(log))| + m.ready
    {
      hide Sent, Stamped;
      match m
      case Clock(n, ready) =>
        Tick(n, ready);
      case Intr(ready) =>
        if sending {
          Kick(ready);
        }
      case Wake(ready) =>
        if waiting && lbolt >= due {
          WakeUp(ready);
        }
      case _ =>
    }

    // the end of the wait there is, after so many ticks, or an interrupt
    method Next() returns (rest: Option<nat>)
      requires Valid() && Going() && !Spent(timed, queue)
      modifies this
      ensures Valid() && Going() && Written() == old(Written()) && timed == old(timed) && |queue| < |old(queue)|
      ensures lbolt == old(lbolt) + if rest.Some? then rest.value else 0
      ensures |Sent(log)| <= |Sent(old(log))| + 1
    {
      hide Holds, Timely, Spelled, Flat, Origin, Total, Due, Sent, Stamped, Served;
      QueueFront(ring[..], head, tail, queue);
      if waiting {
        rest := Some(if due > lbolt then due - lbolt else 0);
        Happen(Clock(rest.value, 0));
        Happen(Wake(1));
      } else {
        rest := None;
        Happen(Intr(1));
      }
    }

    /** From every state a finite run of interrupts and wakes sends all that is queued: then everything
        written has gone out, without its waits. */
    method Drain() returns (moves: seq<Move>)
      requires Valid() && Going()
      modifies this
      ensures Valid() && Going() && Written() == old(Written()) && timed == old(timed)
      ensures Spent(timed, queue) && Sent(log) == Strip(timed, old(Written()))
      ensures |moves| <= 2 * |old(queue)| && forall m | m in moves :: m.Clock? || m.Intr? || m.Wake?
      ensures lbolt == old(lbolt) + Ticked(moves) && |Sent(log)| <= |Sent(old(log))| + Readied(moves)
    {
      hide Holds, Timely, Spelled, Flat, Origin, Total, Due, Sent, Strip, Stamped, Served, Ticked, Readied, Going;
      MovesNone();
      moves := [];
      QueueFront(ring[..], head, tail, queue);
      while head != tail && !(timed && ring[head] == WAIT && Used(head, tail, RING) == 1)
        invariant Valid() && Going() && Written() == old(Written()) && timed == old(timed)
        invariant |moves| + 2 * |queue| <= 2 * |old(queue)|
        invariant lbolt == old(lbolt) + Ticked(moves) && |Sent(log)| <= |Sent(old(log))| + Readied(moves)
        invariant forall m | m in moves :: m.Clock? || m.Intr? || m.Wake?
        decreases |queue|
      {
        QueueFront(ring[..], head, tail, queue);
        assert !Spent(timed, queue);
        var rest := Next();
        if rest.Some? {
          MovesMore(moves, Clock(rest.value, 0));
          MovesMore(moves + [Clock(rest.value, 0)], Wake(1));
          moves := moves + [Clock(rest.value, 0)] + [Wake(1)];
        } else {
          MovesMore(moves, Intr(1));
          moves := moves + [Intr(1)];
        }
      }
      QueueFront(ring[..], head, tail, queue);
      AllSent(timed, log, queue);
    }

    // what a write moves at once, of so many bytes left
    function Piece(left: nat): nat {
      if left < BOUNCE then left else BOUNCE
    }

    // bytes a write can put in
    function Free(): nat
      requires head < RING && tail < RING
      reads this
    {
      RING - 1 - Used(head, tail, RING)
    }

    /** The copy of a write.  It does not look at the room again: the queue survives if and only if there
        is room for it. */
    method CopyIn(buf: seq<Byte>)
      requires ring.Length == RING && head < RING && tail < RING && |buf| <= RING
      modifies this`tail, this`queue, ring
      ensures old(Valid()) ==> (Valid() <==> |buf| <= old(Free()))
      ensures queue == old(queue) + buf && tail == On(old(tail), |buf|, RING)
      ensures forall x | 0 <= x < RING ::
        ring[x] == if Used(old(tail), x, RING) < |buf| then buf[Used(old(tail), x, RING)] else old(ring[x])
    {
      hide Used, On, Timely, Spelled, Origin, Total, Due;
      var t := tail;
      ghost var was, room := ring[..], Free();
      for i := 0 to |buf|
        invariant tail == On(t, i, RING) && queue == old(queue) + buf[..i]
        invariant forall x | 0 <= x < RING :: ring[x] == if Used(t, x, RING) < i then buf[Used(t, x, RING)] else was[x]
      {
        ring[tail] := buf[i];
        tail := On(tail, 1, RING);
        queue := queue + [buf[i]];
      }
      assert buf[..|buf|] == buf;
      HeldAll(was, ring[..], head, t, old(queue), buf);
    }

    // a piece of a write into the queue
    method Put(buf: seq<Byte>, ready: nat)
      requires Valid() && |buf| <= Free()
      requires Going() || |buf| > 0
      modifies this, ring
      ensures Valid() && Going() && Written() == old(Written()) + buf && |queue| <= |old(queue)| + |buf|
      ensures old(log) <= log && timed == old(timed) && lbolt == old(lbolt) && begun == old(begun)
      ensures if old(sending || waiting) then log == old(log) else Served(old(log), ready)
    {
      hide Holds, Timely, Spelled, Flat, Origin, Total, Due, Going, Served;
      CopyIn(buf);
      assert Written() == old(Written()) + buf;
      if !sending && !waiting {
        Kick(ready);
      } else {
        BusyGoing();
      }
    }

    // the copies while the queue is being sent: no kick follows them
    method PutBusy(bufs: seq<seq<Byte>>)
      requires Valid() && (sending || waiting) && forall b | b in bufs :: |b| <= BOUNCE
      modifies this`tail, this`queue, ring
      ensures Valid() <==> Sum(bufs) <= old(Free())
      ensures Written() == old(Written()) + Join(bufs)
    {
      hide Used, On, Holds, Timely, Spelled, Flat, Origin, Total, Due;
      ghost var room := Free();
      HeldRoom(ring[..], head, tail, queue);
      var i := 0;
      assert bufs[..0] == [];
      while i < |bufs|
        invariant i <= |bufs| && tail < RING && head < RING && queue == old(queue) + Join(bufs[..i])
        invariant |Join(bufs[..i])| == Sum(bufs[..i]) && |queue| == RING - 1 - room + Sum(bufs[..i])
        invariant Valid() <==> Sum(bufs[..i]) <= room
      {
        SumMore(bufs, i);
        HeldRoom(ring[..], head, tail, queue);
        CopyIn(bufs[i]);
        HeldRoom(ring[..], head, tail, queue);
        i := i + 1;
      }
      assert bufs[..i] == bufs;
    }

    /** The copies of several writes that have all found room, with the port ready for so many bytes at the
        kick after each.  The first k find nothing being sent, and fit; from then on there is room bytes of
        room, and the queue survives if and only if that is enough for all the others together. */
    method PutAll(bufs: seq<seq<Byte>>, readys: seq<nat>) returns (ghost k: nat, ghost room: int)
      requires Valid() && Going() && |readys| == |bufs| && forall b | b in bufs :: |b| <= BOUNCE
      modifies this, ring
      ensures k <= |bufs| && (Valid() <==> Sum(bufs[k..]) <= room)
      ensures old(sending || waiting) ==> k == 0 && room == old(Free())
      ensures RING - 2 - BOUNCE <= room || old(sending || waiting)
      ensures Written() == old(Written()) + Join(bufs)
    {
      hide Used, On, Holds, Timely, Spelled, Flat, Origin, Total, Due, Sum, Join, Going;
      SumNone();
      var i := 0;
      assert bufs[..0] == [] && bufs[0..] == bufs;
      if !sending && !waiting {
        i := PutIdle(bufs, readys);
      }
      k, room := i, Free();
      JoinSplit(bufs, i);
      if i < |bufs| {
        assert forall b | b in bufs[i..] :: b in bufs;
        PutBusy(bufs[i..]);
      } else {
        assert bufs[i..] == [];
      }
    }

    // the copies while nothing is being sent
    method PutIdle(bufs: seq<seq<Byte>>, readys: seq<nat>) returns (i: nat)
      requires Valid() && Going() && !sending && !waiting
      requires |readys| == |bufs| && forall b | b in bufs :: |b| <= BOUNCE
      modifies this, ring
      ensures i <= |bufs| && Valid() && (i < |bufs| ==> sending || waiting) && RING - 2 - BOUNCE <= Free()
      ensures Written() == old(Written()) + Join(bufs[..i])
    {
      hide Used, On, Holds, Timely, Spelled, Flat, Origin, Total, Due, Sum, Join, Going;
      SumNone();
      i := 0;
      IdleRoom();
      assert bufs[..0] == [];
      while i < |bufs| && !sending && !waiting
        invariant i <= |bufs| && Valid() && Going() && |queue| <= 1 + BOUNCE && Free() == RING - 1 - |queue|
        invariant Written() == old(Written()) + Join(bufs[..i])
      {
        IdleRoom();
        SumMore(bufs, i);
        assert bufs[i] in bufs;
        Put(bufs[i], readys[i]);
        HeldRoom(ring[..], head, tail, queue);
        i := i + 1;
      }
    }

    // with nothing to send there is at most a lone wait command in the queue
    lemma IdleRoom()
      requires Valid() && Going() && !sending && !waiting
      ensures |queue| <= 1 && Free() == RING - 1 - |queue|
    {
      HeldRoom(ring[..], head, tail, queue);
    }

    /** Two processes, each with a piece of 512 bytes and room for 512: both find room, and after the
        second copy the queue is the last 511 bytes of it alone. */
    method TwoWriters(b1: seq<Byte>, b2: seq<Byte>)
      requires Valid() && Free() == 512 && |b1| == |b2| == 512
      modifies this`tail, this`queue, ring
      ensures !Valid() && head < RING && tail < RING && Used(head, tail, RING) == 511 && ring[head] == b2[1]
    {
      hide Timely, Spelled, Flat, Origin, Total, Due;
      CopyIn(b1);
      CopyIn(b2);
    }

    /** Processes that write at the same time, with the interrupts running.  The run goes on while there is
        room for all that is claimed, and nothing of what was copied is lost or reordered; it stops where
        there no longer is, and there PutAll breaks it.  With one writer at a time it never stops. */
    method Writers(events: seq<Event<Move>>) returns (claims: seq<seq<Byte>>, fits: bool, ghost copied: seq<seq<Byte>>)
      requires Valid() && Going()
      modifies this, ring
      ensures Valid() && Going() && (fits <==> Sum(claims) <= Free()) && forall b | b in claims :: |b| <= BOUNCE
      ensures Written() == old(Written()) + Join(copied)
      ensures old(log) <= log && timed == old(timed) && lbolt >= old(lbolt) && begun == old(begun)
      ensures Exclusive(false, events) ==> fits
    {
      hide Used, On, Holds, Timely, Spelled, Flat, Origin, Total, Due, Going, Exclusive, Sum, Join;
      SumNone();
      claims, fits, copied := [], true, [];
      var j := 0;
      ghost var busy, alone := false, Exclusive(false, events);
      assert events[0..] == events;
      HeldRoom(ring[..], head, tail, queue);
      while fits && j < |events|
        invariant 0 <= j <= |events| && Valid() && Going() && |queue| == Used(head, tail, RING)
        invariant (fits <==> Sum(claims) <= Free()) && forall b | b in claims :: |b| <= BOUNCE
        invariant Written() == old(Written()) + Join(copied)
        invariant old(log) <= log && timed == old(timed) && lbolt >= old(lbolt) && begun == old(begun)
        invariant alone ==> fits && Exclusive(busy, events[j..]) && (if busy then |claims| <= 1 else claims == [])
        decreases |events| - j
      {
        assert events[j..][1..] == events[j + 1..];
        if alone {
          ExclusiveStep(busy, events[j..]);
        }
        match events[j] {
          case Other(m) =>
            Happen(m);
          case Claim(buf) =>
            busy := true;
            if |buf| <= BOUNCE && |buf| <= Free() {
              SumLast(claims, buf);
              claims := claims + [buf];
            }
          case Finish(k, ready) =>
            busy := false;
            if k < |claims| {
              SumDrop(claims, k);
              SumLast(copied, claims[k]);
              copied := copied + [claims[k]];
              Put(claims[k], ready);
              claims := claims[..k] + claims[k + 1..];
            }
        }
        HeldRoom(ring[..], head, tail, queue);
        fits := Sum(claims) <= Free();
        j := j + 1;
      }
    }

    lemma BusyGoing()
      requires sending || waiting
      ensures Going()
    {
    }

    // a write sleeps until there is room for n bytes
    method Sleep(moves: seq<Move>, j0: nat, n: nat, pending: bool) returns (j: nat, r: Slept)
      requires Valid() && Going() && j0 <= |moves|
      modifies this, ring
      ensures Valid() && Going() && Written() == old(Written()) && |queue| <= |old(queue)| && j0 <= j <= |moves|
      ensures old(log) <= log && timed == old(timed) && lbolt >= old(lbolt) && begun == old(begun)
      ensures r.Awake? <==> Free() >= n
      ensures r.Interrupted? ==> pending || Signal in moves
      ensures !r.Interrupted? ==> forall k | j0 <= k < j :: !moves[k].Signal?
      ensures r.Asleep? ==> !pending && j == |moves|
      ensures |queue| == RING - 1 - Free() && (n <= RING - 1 - |old(queue)| ==> r.Awake?)
    {
      hide Holds, Timely, Spelled, Flat, Origin, Total, Due, Going;
      j := j0;
      HeldRoom(ring[..], head, tail, queue);
      while Free() < n
        invariant Valid() && Going() && Written() == old(Written()) && |queue| <= |old(queue)| && j0 <= j <= |moves|
        invariant old(log) <= log && timed == old(timed) && lbolt >= old(lbolt) && begun == old(begun)
        invariant |queue| == RING - 1 - Free() && forall k | j0 <= k < j :: !moves[k].Signal?
        decreases |moves| - j
      {
        if pending || (j < |moves| && moves[j].Signal?) {
          return j, Interrupted;
        }
        if j == |moves| {
          return j, Asleep;
        }
        Happen(moves[j]);
        HeldRoom(ring[..], head, tail, queue);
        j := j + 1;
      }
      return j, Awake;
    }

    // what happens while the user's bytes are taken
    method FromUser(moves: seq<Move>, j0: nat, was: bool) returns (j: nat, pending: bool)
      requires Valid() && Going() && j0 <= |moves|
      modifies this, ring
      ensures Valid() && Going() && Written() == old(Written()) && |queue| <= |old(queue)| && j0 <= j <= |moves|
      ensures old(log) <= log && timed == old(timed) && lbolt >= old(lbolt) && begun == old(begun)
      ensures j < |moves| ==> moves[j].Moved? || moves[j].Fault?
      ensures pending ==> was || Signal in moves
      ensures !pending ==> !was && forall k | j0 <= k < j :: !moves[k].Signal?
    {
      hide Holds, Timely, Spelled, Flat, Origin, Total, Due, Going;
      j, pending := j0, was;
      while j < |moves| && !moves[j].Moved? && !moves[j].Fault?
        invariant Valid() && Going() && Written() == old(Written()) && |queue| <= |old(queue)| && j0 <= j <= |moves|
        invariant old(log) <= log && timed == old(timed) && lbolt >= old(lbolt) && begun == old(begun)
        invariant pending ==> was || Signal in moves
        invariant !pending ==> !was && forall k | j0 <= k < j :: !moves[k].Signal?
      {
        pending := pending || moves[j].Signal?;
        Happen(moves[j]);
        j := j + 1;
      }
    }

    /** midiwrite: on success all of the data joins the stream; on an error a front part of it does, and
        while the write sleeps for room too.  A signal stops it only where it would sleep. */
    method Write(data: seq<Byte>, moves: seq<Move>) returns (err: Option<Error>, done: nat, asleep: bool)
      requires Valid() && Going()
      modifies this, ring
      ensures Valid() && Going() && done <= |data| && Written() == old(Written()) + data[..done]
      ensures asleep ==> err.None? && Free() < Piece(|data| - done) && Signal !in moves
      ensures err.None? && !asleep ==> done == |data|
      ensures err == Some(EINTR) ==> Signal in moves && Free() < Piece(|data| - done)
      ensures err == Some(EFAULT) ==> Fault in moves && Free() >= Piece(|data| - done) > 0
      ensures |data| <= RING - 1 - |old(queue)| && Fault !in moves ==> err.None? && !asleep
      ensures old(log) <= log && timed == old(timed) && lbolt >= old(lbolt) && begun == old(begun)
    {
      hide Holds, Timely, Spelled, Flat, Origin, Total, Due, Going;
      done, err, asleep := 0, None, false;
      var j, pending := 0, false;
      HeldRoom(ring[..], head, tail, queue);
      while done < |data|
        invariant Valid() && Going() && done <= |data| && Written() == old(Written()) + data[..done] && j <= |moves|
        invariant |queue| <= |old(queue)| + done && (pending ==> Signal in moves) && |queue| == RING - 1 - Free()
        invariant !pending ==> forall k | 0 <= k < j :: !moves[k].Signal?
        invariant old(log) <= log && timed == old(timed) && lbolt >= old(lbolt) && begun == old(begun)
      {
        var n := Piece(|data| - done);
        var slept;
        j, slept := Sleep(moves, j, n, pending);
        if slept.Interrupted? {
          return Some(EINTR), done, false;
        }
        if slept.Asleep? {
          return None, done, true;
        }
        j, pending := FromUser(moves, j, pending);
        HeldRoom(ring[..], head, tail, queue);
        var ready := 0;
        if j < |moves| {
          if moves[j].Fault? {
            return Some(EFAULT), done, false;
          }
          ready := moves[j].ready;
          j := j + 1;
        }
        assert data[..done] + data[done..done + n] == data[..done + n];
        Put(data[done..done + n], ready);
        HeldRoom(ring[..], head, tail, queue);
        done := done + n;
      }
      assert data[..done] == data;
    }

    /** MIDI_FLUSH: what is queued is dropped, and the timeline begins at now. */
    method Flush()
      requires Valid()
      modifies this
      ensures Valid() && Going() && Written() == [] && log == [] && start == due == lbolt == old(lbolt) && !waiting
    {
      head := tail;
      waiting, sending := false, false;
      start, due_ms, due := lbolt, 0, lbolt;
      begun, log, queue := lbolt, [], [];
    }
  }

  lemma QueueFront(m: seq<Byte>, head: nat, tail: nat, queue: seq<Byte>)
    requires Holds(m, head, tail, queue)
    ensures head < RING && tail < RING && |m| == RING && |queue| == Used(head, tail, RING)
    ensures queue == [] <==> head == tail
    ensures queue != [] ==> m[head] == queue[0]
    ensures |queue| > 1 ==> m[On(head, 1, RING)] == queue[1]
  {
  }

  lemma {:induction false} TookOne(m: seq<Byte>, head: nat, tail: nat, queue: seq<Byte>, log: seq<Token>)
    requires Holds(m, head, tail, queue) && head != tail
    ensures |queue| >= 1 && queue[0] == m[head] && Holds(m, On(head, 1, RING), tail, queue[1..])
    ensures Flat(log) + queue == (Flat(log) + [queue[0]]) + queue[1..]
  {
  }

  lemma {:induction false} TookTwo(m: seq<Byte>, head: nat, tail: nat, queue: seq<Byte>, log: seq<Token>, n: Byte)
    requires Holds(m, head, tail, queue) && Used(head, tail, RING) >= 2
    requires m[head] == WAIT && n == m[On(head, 1, RING)]
    ensures |queue| >= 2 && queue[0] == WAIT && queue[1] == n && Holds(m, On(head, 2, RING), tail, queue[2..])
    ensures Flat(log) + queue == (Flat(log) + [WAIT, n]) + queue[2..]
  {
  }

  lemma {:induction false} DueIs(hertz: nat, begun: int, log: seq<Token>)
    ensures Due(hertz, begun, log) == Origin(begun, log) + MsToTicks(hertz, Total(log))
  {
    hide Ticks, MsToTicks;
    TicksExact(hertz, Total(log));
  }

  // a wait and its count at the front of the queue, moved to the log
  lemma WaitMet(hertz: nat, begun: int, timed: bool, m: seq<Byte>, head: nat, tail: nat, queue: seq<Byte>,
                log: seq<Token>, now: int)
    requires Holds(m, head, tail, queue) && timed && Used(head, tail, RING) >= 2 && m[head] == WAIT
    requires Timely(hertz, begun, log) && Spelled(timed, log)
    ensures |queue| >= 2 && queue[0] == WAIT && queue[1] == m[On(head, 1, RING)]
    ensures Holds(m, On(head, 2, RING), tail, queue[2..])
    ensures var snap := Due(hertz, begun, log) + SNAP_TICKS < now;
      var more := log + [Pause(queue[1], now, snap)];
      && Timely(hertz, begun, more) && Spelled(timed, more) && Flat(log) + queue == Flat(more) + queue[2..]
      && Origin(begun, more) == (if snap then now else Origin(begun, log))
      && Total(more) == (if snap then 0 else Total(log)) + queue[1]
      && Due(hertz, begun, more) == Origin(begun, more) + Ticks(hertz, Total(more))
  {
    hide Holds, Timely, Spelled, Flat, Origin, Total, Ticks;
    QueueFront(m, head, tail, queue);
    TookTwo(m, head, tail, queue, log, m[On(head, 1, RING)]);
    LogMore(hertz, begun, timed, log, Pause(queue[1], now, Due(hertz, begun, log) + SNAP_TICKS < now));
  }

  /** Nothing is held back for good: with the queue empty, or holding only a wait without its count, all
      of the written stream's data has gone out. */
  lemma {:induction false} AllSent(timed: bool, log: seq<Token>, queue: seq<Byte>)
    requires Spelled(timed, log) && (queue == [] || (timed && queue == [WAIT]))
    ensures Sent(log) == Strip(timed, Flat(log) + queue)
  {
    SentIsPrefix(timed, log, queue);
  }
}
