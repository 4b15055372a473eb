/**
 The X server's keyboard and mouse input: bytes of the IKBD stream come in reads
 of any size, packets become key and button events, and mouse motion is gathered
 and delivered before the next of them.
 */
module Ikbd {
  import opened Basics

  const SIZE := 256
  const IKBD_ABSMOUSE := 0xF7
  const IKBD_TIME := 0xFC
  const IKBD_JOYS := 0xFD
  const IKBD_JOY0 := 0xFE
  const IKBD_JOY1 := 0xFF

  // what the server is given; button 1 is the left one, 3 the right one
  datatype Event = Motion(dx: int, dy: int) | Key(code: Byte) | Button(button: nat, down: bool)

  function Len(c: Byte): (n: nat)
    ensures 1 <= n <= 7
  {
    if c < 0xF6 then 1
    else if 0xF8 <= c <= 0xFB then 3
    else if c == IKBD_ABSMOUSE then 6
    else if c == IKBD_TIME then 7
    else if c == IKBD_JOYS then 3
    else if c == IKBD_JOY0 || c == IKBD_JOY1 then 2
    else 1
  }

  function S8(b: Byte): int {
    if b >= 0x80 then b - 0x100 else b
  }

  // ----- the whole stream

  // a key or button event, and where the pointer had been moved by then
  datatype Seen = Seen(event: Event, x: int, y: int)

  datatype State = State(seen: seq<Seen>, x: int, y: int, left: bool, right: bool)

  function Press(st: State, button: nat, was: bool, down: bool): seq<Seen> {
    if was == down then [] else [Seen(Button(button, down), st.x, st.y)]
  }

  // one packet: a key, a relative mouse packet, or one that is dropped
  function Packet(st: State, p: seq<Byte>): State
    requires |p| > 0 && |p| == Len(p[0])
  {
    if p[0] < 0xF6 then st.(seen := st.seen + [Seen(Key(p[0]), st.x, st.y)])
    else if 0xF8 <= p[0] <= 0xFB then
      var at := st.(x := st.x + S8(p[1]), y := st.y + S8(p[2]));
      var left, right := p[0] % 4 >= 2, p[0] % 2 == 1;
      at.(seen := at.seen + Press(at, 1, st.left, left) + Press(at, 3, st.right, right), left := left, right := right)
    else st
  }

  /** With the buttons up at (0, 0): 0xFA is the left button, 1, 0xF9 the right one, 3, 0xFB both in that order,
      and 0xF8 neither; the two bytes after it are signed distances, and the buttons change where they lead.  A byte
      below 0xF6 is a key. */
  lemma Headers(dx: Byte, dy: Byte, k: Byte)
    requires dx < 128 && dy >= 128 && k < 0xF6
    ensures var up, x, y := State([], 0, 0, false, false), dx as int, dy as int - 256;
      && Packet(up, [0xF8, dx, dy]) == State([], x, y, false, false)
      && Packet(up, [0xFA, dx, dy]) == State([Seen(Button(1, true), x, y)], x, y, true, false)
      && Packet(up, [0xF9, dx, dy]) == State([Seen(Button(3, true), x, y)], x, y, false, true)
      && Packet(up, [0xFB, dx, dy])
         == State([Seen(Button(1, true), x, y), Seen(Button(3, true), x, y)], x, y, true, true)
      && Packet(up, [k]) == State([Seen(Key(k), 0, 0)], 0, 0, false, false)
  {
  }

  // the packets that are whole, and what is left of the stream
  function Parse(st: State, s: seq<Byte>): (r: (State, seq<Byte>))
    ensures r.1 == [] || |r.1| < Len(r.1[0])
    decreases |s|
  {
    if s == [] || |s| < Len(s[0]) then (st, s)
    else Parse(Packet(st, s[..Len(s[0])]), s[Len(s[0])..])
  }

  /** Splitting the stream anywhere makes no difference. */
  lemma {:induction false} SplitAnywhere(st: State, a: seq<Byte>, b: seq<Byte>)
    ensures Parse(st, a + b) == Parse(Parse(st, a).0, Parse(st, a).1 + b)
    decreases |a|
  {
    if a != [] && |a| >= Len(a[0]) {
      var n := Len(a[0]);
      assert (a + b)[..n] == a[..n] && (a + b)[n..] == a[n..] + b;
      SplitAnywhere(Packet(st, a[..n]), a[n..], b);
    }
  }

  // ----- what has been delivered

  function SumX(log: seq<Event>): int {
    if log == [] then 0 else SumX(log[..|log|-1]) + if log[|log|-1].Motion? then log[|log|-1].dx else 0
  }

  function SumY(log: seq<Event>): int {
    if log == [] then 0 else SumY(log[..|log|-1]) + if log[|log|-1].Motion? then log[|log|-1].dy else 0
  }

  // the key and button events, each with the motion delivered before it
  function SeenIn(log: seq<Event>): seq<Seen> {
    if log == [] then []
    else
      var front, last := log[..|log|-1], log[|log|-1];
      SeenIn(front) + if last.Motion? then [] else [Seen(last, SumX(front), SumY(front))]
  }

  // the state the delivered events and the motion not yet delivered amount to
  function View(log: seq<Event>, dx: int, dy: int, left: bool, right: bool): State {
    State(SeenIn(log), SumX(log) + dx, SumY(log) + dy, left, right)
  }

  lemma {:induction false} LogMore(log: seq<Event>, e: Event)
    ensures SumX(log + [e]) == SumX(log) + if e.Motion? then e.dx else 0
    ensures SumY(log + [e]) == SumY(log) + if e.Motion? then e.dy else 0
    ensures SeenIn(log + [e]) == SeenIn(log) + if e.Motion? then [] else [Seen(e, SumX(log), SumY(log))]
  {
  }

  class Input {
    const buf: array<Byte>
    var have: nat
    var atwDx: int
    var atwDy: int
    var left: bool
    var right: bool
    // the events given to the server
    var log: seq<Event>

    function Now(): State
      reads this
    {
      View(log, atwDx, atwDy, left, right)
    }

    // the bytes carried over are less than one packet
    ghost predicate Valid()
      reads this, buf
    {
      buf.Length == SIZE && have < 7 && (have > 0 ==> have < Len(buf[0]))
    }

    function Carry(): seq<Byte>
      requires have <= buf.Length
      reads this, buf
    {
      buf[..have]
    }

    /** atwFlushMotion. */
    method FlushMotion()
      modifies this`log, this`atwDx, this`atwDy
      ensures Now() == old(Now()) && atwDx == 0 && atwDy == 0
    {
      hide SumX, SumY, SeenIn;
      LogMore(log, Motion(atwDx, atwDy));
      if atwDx != 0 || atwDy != 0 {
        log := log + [Motion(atwDx, atwDy)];
        atwDx, atwDy := 0, 0;
      }
    }

    // a key or button event, after the motion before it
    method Deliver(e: Event)
      requires !e.Motion?
      modifies this`log, this`atwDx, this`atwDy
      ensures Now() == old(Now()).(seen := old(Now()).seen + [Seen(e, old(Now()).x, old(Now()).y)])
    {
      hide SumX, SumY, SeenIn;
      FlushMotion();
      LogMore(log, e);
      log := log + [e];
    }

    /** atwMousePacket. */
    method MousePacket(p: seq<Byte>)
      requires |p| == 3 && 0xF8 <= p[0] <= 0xFB
      modifies this`log, this`atwDx, this`atwDy, this`left, this`right
      ensures Now() == Packet(old(Now()), p)
    {
      hide SumX, SumY, SeenIn, Len;
      var l, r := p[0] % 4 >= 2, p[0] % 2 == 1;
      if S8(p[1]) != 0 || S8(p[2]) != 0 {
        atwDx := atwDx + S8(p[1]);
        atwDy := atwDy + S8(p[2]);
      }
      DeliverChange(1, left, l);
      DeliverChange(3, right, r);
      left, right := l, r;
    }

    // a button that has changed
    method DeliverChange(button: nat, was: bool, down: bool)
      modifies this`log, this`atwDx, this`atwDy
      ensures Now() == old(Now()).(seen := old(Now()).seen + Press(old(Now()), button, was, down))
    {
      hide View;
      if was != down {
        Deliver(Button(button, down));
      } else {
        assert Now().seen + [] == Now().seen;
      }
    }

    // one whole packet
    method Handle(p: seq<Byte>)
      requires |p| > 0 && |p| == Len(p[0])
      modifies this`log, this`atwDx, this`atwDy, this`left, this`right
      ensures Now() == Packet(old(Now()), p)
    {
      hide SumX, SumY, SeenIn;
      if p[0] < 0xF6 {
        Deliver(Key(p[0]));
      } else if 0xF8 <= p[0] <= 0xFB {
        MousePacket(p);
      }
    }

    // the packets in the first n bytes of the buffer; the rest goes to its front
    method Packets(n: nat)
      requires buf.Length == SIZE && n <= SIZE
      modifies this, buf
      ensures Valid() && (Now(), Carry()) == Parse(old(Now()), old(buf[..n]))
    {
      hide View, Packet, Len, Parse;
      ghost var all, st := buf[..n], Now();
      assert all[0..] == all;
      var i := 0;
      while i < n
        invariant i <= n && buf[..n] == all && Parse(st, all) == Parse(Now(), all[i..])
      {
        var c := buf[i];
        var len := Len(c);
        assert all[i..][0] == all[i] == c;
        if i + len > n {
          have := n - i;
          forall k | 0 <= k < have {
            buf[k] := buf[i + k];
          }
          assert Carry() == all[i..];
          CarryParses(Now(), all[i..]);
          return;
        }
        ParseStep(Now(), all, i, len);
        var p := buf[..n][i..i + len];
        assert p[0] == c;
        Handle(p);
        i := i + len;
      }
      have := 0;
      assert all[i..] == [] == Carry();
      CarryParses(Now(), []);
    }

    // a read behind the bytes carried over
    method Read(data: seq<Byte>)
      requires buf.Length == SIZE && have + |data| <= SIZE
      modifies buf
      ensures buf[..have + |data|] == old(buf[..have]) + data
    {
      forall x | 0 <= x < |data| {
        buf[have + x] := data[x];
      }
    }

    /** ProcessInputEvents: however the bytes are read, the key and button events and the motion before
        each are those of the stream read in one piece, and what is carried over is less than a packet. */
    method ProcessInputEvents(pending: seq<Byte>, limits: seq<nat>) returns (done: nat)
      requires Valid()
      modifies this, buf
      ensures Valid() && done <= |pending| && atwDx == 0 && atwDy == 0
      ensures |limits| >= |pending| && (forall l | l in limits :: l > 0) ==> done == |pending|
      ensures (Now(), Carry()) == Parse(old(Now()), old(Carry()) + pending[..done])
    {
      hide View, Parse;
      done := 0;
      ghost var st, carry := Now(), Carry();
      CarryParses(st, carry);
      assert carry + pending[..0] == carry;
      for k := 0 to |limits|
        invariant Valid() && done <= |pending|
        invariant (forall l | l in limits :: l > 0) ==> done >= k || done == |pending|
        invariant (Now(), Carry()) == Parse(st, carry + pending[..done])
      {
        var room := if limits[k] < SIZE - have then limits[k] else SIZE - have;
        var n := if room < |pending| - done then room else |pending| - done;
        assert limits[k] in limits;
        if n == 0 {
          break;
        }
        ghost var was, held := Now(), Carry();
        Read(pending[done..done + n]);
        SplitAnywhere(st, carry + pending[..done], pending[done..done + n]);
        assert carry + pending[..done] + pending[done..done + n] == carry + pending[..done + n];
        var total := have + n;
        have := 0;
        Packets(total);
        done := done + n;
      }
      FlushMotion();
    }
  }

  // one packet on
  lemma {:induction false} ParseStep(st: State, s: seq<Byte>, i: nat, n: nat)
    requires i < |s| && n == Len(s[i]) && i + n <= |s|
    ensures s[i..i + n][0] == s[i] && Parse(st, s[i..]) == Parse(Packet(st, s[i..i + n]), s[i + n..])
  {
  }

  // an incomplete packet is carried as it is
  lemma {:induction false} CarryParses(st: State, s: seq<Byte>)
    requires s == [] || |s| < Len(s[0])
    ensures Parse(st, s) == (st, s)
  {
  }

  /** Two ways of reading the same stream give the same events. */
  lemma {:induction false} SameEvents(st: State, a: seq<Byte>, b: seq<Byte>, c: seq<Byte>, d: seq<Byte>)
    requires a + b == c + d
    ensures Parse(Parse(st, a).0, Parse(st, a).1 + b) == Parse(Parse(st, c).0, Parse(st, c).1 + d)
  {
    SplitAnywhere(st, a, b);
    SplitAnywhere(st, c, d);
  }
}
