/**
 The NE2000 receive ring.  The chip stores frames at CURR, page after page
 round the ring, and never enters the page BNRY names; the driver takes them
 out at rxnext and sets BNRY one page behind.  The chip may store any number of
 frames before the driver looks at CURR, before it reads a header, before it
 reads the data, between the two pieces of data that wraps, and before it
 writes BNRY.
 */
module NuRing {
  import opened Basics
  import opened RingMath

  const PAGE := 256
  const MINFRAME := 60
  const MAXFRAME := 1514
  const RXBURST := 8

  // the ring: ring pages from page start on
  datatype Geom = Geom(start: nat, ring: nat) {
    ghost predicate Ok() {
      ring >= 2 && start + ring <= 256
    }

    // rxstop
    function Stop(): nat {
      start + ring
    }

    // the page of a page count that only grows
    function Page(v: nat): (p: nat)
      requires ring > 0
      ensures start <= p < Stop()
    {
      start + v % ring
    }

    // the memory address of a byte count that only grows
    function Addr(b: nat): (a: nat)
      requires ring > 0
      ensures start * PAGE <= a < Stop() * PAGE
    {
      start * PAGE + b % (ring * PAGE)
    }

    // the page before, going round
    function Behind(next: nat): (p: int)
      requires ring > 0
    {
      start + (next - start + ring - 1) % ring
    }
  }

  // what the chip stores: receive status, the bytes after its header, and the page some chips skip
  datatype Frame = Frame(status: Byte, data: seq<Byte>, skip: bool)

  // the header's count: header, data and CRC
  function Count(f: Frame): nat {
    4 + |f.data|
  }

  function Pages(cnt: nat): nat {
    (cnt + 255) / PAGE
  }

  function Span(f: Frame): nat {
    Pages(Count(f)) + if f.skip then 1 else 0
  }

  predicate Storable(f: Frame) {
    Count(f) < 0x1_0000
  }

  // the frame as it lies in memory, with the next frame's page in its header
  function Image(f: Frame, next: Byte): (s: seq<Byte>)
    requires Storable(f)
    ensures |s| == Count(f)
  {
    [f.status, next, Count(f) % 256, Count(f) / 256] + f.data
  }

  // ----- what the driver makes of a frame

  datatype Driver = Driver(nocrc: bool, input: seq<seq<Byte>>, ierrors: nat)

  predicate Received(status: Byte) {
    status % 2 == 1      // RSR_PRX
  }

  // one frame of cnt bytes with its header: its data to nu_input without the CRC, or an error
  function Accept(d: Driver, probe: bool, status: Byte, cnt: nat, data: seq<Byte>): Driver
    requires cnt >= 4 ==> |data| == cnt - 4
  {
    var nocrc := d.nocrc || (probe && 4 + MINFRAME <= cnt < 4 + MINFRAME + 4);
    var crc := if nocrc then 0 else 4;
    if cnt < 4 + MINFRAME + crc || cnt > 4 + MAXFRAME + crc || !Received(status) then
      Driver(nocrc, d.input, d.ierrors + 1)
    else
      Driver(nocrc, d.input + [data[..|data| - crc]], d.ierrors)
  }

  function AcceptAll(d: Driver, probe: bool, fs: seq<Frame>): Driver {
    if fs == [] then d
    else var last := fs[|fs|-1]; Accept(AcceptAll(d, probe, fs[..|fs|-1]), probe, last.status, Count(last), last.data)
  }

  // a frame as a chip that counts the CRC stores it
  predicate Good(f: Frame) {
    Received(f.status) && MINFRAME + 4 <= |f.data| <= MAXFRAME + 4
  }

  // a frame the driver cannot take as the chip stores it, whether its count includes the CRC or not
  predicate Bad(f: Frame) {
    !Received(f.status) || |f.data| < MINFRAME || |f.data| > MAXFRAME + 4
  }

  /** A frame without the received bit, or too short or too long for the chip's way of counting, is one error
      and brings nothing; every other frame is delivered and no error. */
  lemma BadFrame(d: Driver, probe: bool, f: Frame)
    ensures var r := Accept(d, probe, f.status, Count(f), f.data);
      var crc := if r.nocrc then 0 else 4;
      && (r == Driver(r.nocrc, d.input, d.ierrors + 1) <==>
            !Received(f.status) || |f.data| < MINFRAME + crc || |f.data| > MAXFRAME + crc)
      && (Bad(f) ==> r.input == d.input && r.ierrors == d.ierrors + 1)
      && |r.input| + r.ierrors == |d.input| + d.ierrors + 1
  {
  }

  lemma {:induction false} AllCounted(d: Driver, probe: bool, fs: seq<Frame>)
    ensures var r := AcceptAll(d, probe, fs);
      && |r.input| + r.ierrors == |d.input| + d.ierrors + |fs|
      && r.ierrors >= d.ierrors + Bads(fs)
      && d.input <= r.input
  {
    if fs != [] {
      var front, last := fs[..|fs|-1], fs[|fs|-1];
      AllCounted(d, probe, front);
      BadFrame(AcceptAll(d, probe, front), probe, last);
    }
  }

  function Bads(fs: seq<Frame>): nat {
    if fs == [] then 0 else Bads(fs[..|fs|-1]) + if Bad(fs[|fs|-1]) then 1 else 0
  }

  function Payloads(fs: seq<Frame>): seq<seq<Byte>>
    requires forall f | f in fs :: Good(f)
  {
    if fs == [] then [] else
      var last := fs[|fs|-1];
      assert Good(last);
      Payloads(fs[..|fs|-1]) + [last.data[..|last.data| - 4]]
  }

  // Where the counts include the CRC every frame reaches nu_input whole, in order, probing or not.
  lemma {:induction false} GoodChip(d: Driver, probe: bool, fs: seq<Frame>)
    requires !d.nocrc && forall f | f in fs :: Good(f)
    ensures AcceptAll(d, probe, fs) == Driver(false, d.input + Payloads(fs), d.ierrors)
  {
    if fs == [] {
      assert d.input + [] == d.input;
    } else {
      var front, last := fs[..|fs|-1], fs[|fs|-1];
      assert Good(last);
      GoodChip(d, probe, front);
      assert d.input + Payloads(fs) == (d.input + Payloads(front)) + [last.data[..|last.data| - 4]];
    }
  }

  lemma {:induction false} PayloadsConcat(a: seq<Frame>, b: seq<Frame>)
    requires forall f | f in a + b :: Good(f)
    ensures (forall f | f in a :: Good(f)) && (forall f | f in b :: Good(f))
    ensures Payloads(a + b) == Payloads(a) + Payloads(b)
  {
    assert forall f | f in a :: f in a + b;
    assert forall f | f in b :: f in a + b;
    if b == [] {
      assert a + b == a;
    } else {
      assert (a + b)[..|a + b| - 1] == a + b[..|b|-1];
      PayloadsConcat(a, b[..|b|-1]);
    }
  }

  // Where they leave it out, a frame arrives whole if and only if the driver already knows, or
  // learns it from this very frame; otherwise it loses its last four bytes.
  lemma CloneChip(d: Driver, f: Frame)
    requires Received(f.status) && MINFRAME <= |f.data| <= MAXFRAME
    ensures Accept(d, true, f.status, Count(f), f.data).input == d.input + [f.data]
      <==> d.nocrc || |f.data| < MINFRAME + 4
    ensures !d.nocrc && |f.data| >= MINFRAME + 4 ==>
      Accept(d, true, f.status, Count(f), f.data).input == d.input + [f.data[..|f.data| - 4]]
  {
    assert f.data[..|f.data|] == f.data;
    assert |f.data[..|f.data| - 4]| != |f.data|;
    var r := Accept(d, true, f.status, Count(f), f.data).input;
    assert r == d.input + [r[|d.input|]];
    assert (d.input + [f.data])[|d.input|] == f.data;
  }

  // the driver has met a frame so short that it cannot hold a CRC
  predicate Learnt(fs: seq<Frame>) {
    exists i :: 0 <= i < |fs| && |fs[i].data| < MINFRAME + 4
  }

  // what arrives of each: whole from the first short one on, without its last four bytes before
  function Arrived(fs: seq<Frame>): seq<seq<Byte>> {
    if fs == [] then [] else
      var last := fs[|fs|-1].data;
      Arrived(fs[..|fs|-1]) + [if Learnt(fs) || |last| < 4 then last else last[..|last| - 4]]
  }

  lemma CloneTakes(d: Driver, f: Frame, learnt: bool)
    requires Received(f.status) && MINFRAME <= |f.data| <= MAXFRAME
    requires learnt <==> d.nocrc || |f.data| < MINFRAME + 4
    ensures Accept(d, true, f.status, Count(f), f.data)
         == Driver(learnt, d.input + [if learnt then f.data else f.data[..|f.data| - 4]], d.ierrors)
  {
    assert f.data[..|f.data|] == f.data;
  }

  lemma LearntMore(fs: seq<Frame>)
    requires fs != []
    ensures Learnt(fs) <==> Learnt(fs[..|fs|-1]) || |fs[|fs|-1].data| < MINFRAME + 4
  {
    var front := fs[..|fs|-1];
    assert forall i | 0 <= i < |front| :: front[i] == fs[i];
  }

  /** On such a chip, over any run of frames: those before the first short one lose their last four bytes,
      that one and all later ones arrive whole, and none is an error. */
  lemma {:induction false} CloneRun(d: Driver, fs: seq<Frame>)
    requires !d.nocrc && forall f | f in fs :: Received(f.status) && MINFRAME <= |f.data| <= MAXFRAME
    ensures AcceptAll(d, true, fs) == Driver(Learnt(fs), d.input + Arrived(fs), d.ierrors)
  {
    hide Accept;
    if fs == [] {
      assert d.input + [] == d.input;
    } else {
      var front, last := fs[..|fs|-1], fs[|fs|-1];
      CloneRun(d, front);
      LearntMore(fs);
      assert last in fs;
      CloneTakes(AcceptAll(d, true, front), last, Learnt(fs));
      assert d.input + Arrived(fs) == (d.input + Arrived(front)) + [Arrived(fs)[|front|]] by {
        ArrivedLength(front);
      }
    }
  }

  lemma {:induction false} ArrivedLength(fs: seq<Frame>)
    ensures |Arrived(fs)| == |fs|
  {
    if fs != [] {
      ArrivedLength(fs[..|fs|-1]);
    }
  }

  lemma {:induction false} AcceptLast(d: Driver, probe: bool, fs: seq<Frame>, f: Frame)
    ensures AcceptAll(d, probe, fs + [f]) == Accept(AcceptAll(d, probe, fs), probe, f.status, Count(f), f.data)
  {
  }

  // ----- the ring's contents

  ghost function At(m: seq<Byte>, g: Geom, b: nat): Byte
    requires g.Ok() && |m| == 256 * PAGE
  {
    m[g.Addr(b)]
  }

  // the frame lies at page count v
  ghost predicate Lies(m: seq<Byte>, g: Geom, v: nat, f: Frame)
    requires g.Ok() && |m| == 256 * PAGE
  {
    Storable(f) && forall b: nat {:trigger At(m, g, b)} | v * PAGE <= b < v * PAGE + Count(f) ::
      At(m, g, b) == Image(f, g.Page(v + Span(f)))[b - v * PAGE]
  }

  // the frames lie one after the other from page count v up to vc
  ghost predicate Layout(m: seq<Byte>, g: Geom, v: nat, fs: seq<Frame>, vc: nat)
    requires g.Ok() && |m| == 256 * PAGE
    decreases |fs|
  {
    if fs == [] then v == vc
    else v + Span(fs[0]) <= vc && Lies(m, g, v, fs[0]) && Layout(m, g, v + Span(fs[0]), fs[1..], vc)
  }

  // the two memories agree on the bytes from page count v up to vc
  ghost predicate Agree(m: seq<Byte>, m': seq<Byte>, g: Geom, v: nat, vc: nat)
    requires g.Ok() && |m| == |m'| == 256 * PAGE
  {
    forall b: nat {:trigger At(m', g, b)} | v * PAGE <= b < vc * PAGE :: At(m', g, b) == At(m, g, b)
  }

  lemma LiesKeeps(m: seq<Byte>, m': seq<Byte>, g: Geom, v: nat, f: Frame, vc: nat)
    requires g.Ok() && |m| == |m'| == 256 * PAGE && Lies(m, g, v, f)
    requires Agree(m, m', g, v, vc) && v + Span(f) <= vc
    ensures Lies(m', g, v, f)
  {
  }

  lemma {:induction false} LayoutKeeps(m: seq<Byte>, m': seq<Byte>, g: Geom, v: nat, fs: seq<Frame>, vc: nat)
    requires g.Ok() && |m| == |m'| == 256 * PAGE && Layout(m, g, v, fs, vc) && Agree(m, m', g, v, vc)
    ensures Layout(m', g, v, fs, vc)
    decreases |fs|
  {
    if fs != [] {
      hide At, Lies;
      LiesKeeps(m, m', g, v, fs[0], vc);
      LayoutKeeps(m, m', g, v + Span(fs[0]), fs[1..], vc);
    }
  }

  lemma {:induction false} LayoutSnoc(m: seq<Byte>, g: Geom, v: nat, fs: seq<Frame>, vc: nat, f: Frame)
    requires g.Ok() && |m| == 256 * PAGE && Layout(m, g, v, fs, vc) && Lies(m, g, vc, f)
    ensures Layout(m, g, v, fs + [f], vc + Span(f))
    decreases |fs|
  {
    if fs == [] {
      assert (fs + [f])[1..] == [];
    } else {
      assert (fs + [f])[1..] == fs[1..] + [f];
      LayoutSnoc(m, g, v + Span(fs[0]), fs[1..], vc, f);
    }
  }

  // one byte stored at b0 leaves every byte less than a turn behind it
  lemma StoreByte(m: seq<Byte>, g: Geom, b0: nat, x: Byte, lo: nat)
    requires g.Ok() && |m| == 256 * PAGE && lo <= b0 < lo + g.ring * PAGE
    ensures var m' := m[g.Addr(b0) := x];
      At(m', g, b0) == x && forall b: nat {:trigger At(m', g, b)} | lo <= b < b0 :: At(m', g, b) == At(m, g, b)
  {
    forall b: nat | lo <= b < b0 ensures g.Addr(b) != g.Addr(b0) {
      ModDistinct(b, b0, g.ring * PAGE);
    }
  }

  // the registers and the memory show the frames from vr up to vc, with BNRY behind the page count vb
  // the driver last told the chip of
  ghost predicate Shows(g: Geom, m: seq<Byte>, rxnext: nat, bnry: int, curr: nat, vb: nat, vr: nat, vc: nat,
                        fs: seq<Frame>) {
    && g.Ok() && |m| == 256 * PAGE
    && vb <= vr <= vc < vb + g.ring
    && rxnext == g.Page(vr) && bnry == g.Behind(g.Page(vb)) && curr == g.Page(vc)
    && Layout(m, g, vr, fs, vc)
  }

  lemma ShowsFacts(g: Geom, m: seq<Byte>, rxnext: nat, bnry: int, curr: nat, vb: nat, vr: nat, vc: nat, fs: seq<Frame>)
    requires Shows(g, m, rxnext, bnry, curr, vb, vr, vc, fs)
    ensures g.Ok() && |m| == 256 * PAGE && vb <= vr <= vc < vb + g.ring
    ensures rxnext == g.Page(vr) && bnry == g.Behind(g.Page(vb)) && curr == g.Page(vc)
    ensures fs != [] ==> vr + Span(fs[0]) <= vc && Lies(m, g, vr, fs[0])
  {
  }

  // a frame stored at CURR, and CURR behind it
  lemma StoreShows(g: Geom, m: seq<Byte>, m': seq<Byte>, rxnext: nat, bnry: int, curr: nat, vb: nat, vr: nat, vc: nat,
                   fs: seq<Frame>, f: Frame)
    requires Shows(g, m, rxnext, bnry, curr, vb, vr, vc, fs) && |m'| == |m| && Storable(f)
    requires Agree(m, m', g, vr, vc) && vc + Span(f) < vb + g.ring && Lies(m', g, vc, f)
    ensures Shows(g, m', rxnext, bnry, g.Page(vc + Span(f)), vb, vr, vc + Span(f), fs + [f])
  {
    hide Layout, Lies, Agree;
    LayoutKeeps(m, m', g, vr, fs, vc);
    LayoutSnoc(m', g, vr, fs, vc, f);
  }

  // the oldest frame passed over; BNRY stays where it was
  lemma PassShows(g: Geom, m: seq<Byte>, rxnext: nat, bnry: int, curr: nat, vb: nat, vr: nat, vc: nat, fs: seq<Frame>)
    requires Shows(g, m, rxnext, bnry, curr, vb, vr, vc, fs) && fs != []
    ensures Shows(g, m, g.Page(vr + Span(fs[0])), bnry, curr, vb, vr + Span(fs[0]), vc, fs[1..])
  {
  }

  // the pages the chip may fill before it reaches BNRY
  lemma ChipSpace(g: Geom, vb: nat, vc: nat)
    requires g.Ok() && vb <= vc < vb + g.ring
    ensures g.Behind(g.Page(vb)) == g.Page(vb + g.ring - 1)
    ensures (g.Behind(g.Page(vb)) - g.Page(vc) + g.ring) % g.ring == vb + g.ring - 1 - vc
  {
    ModAdd(vb, g.ring - 1, g.ring);
    ModAdd(vb % g.ring, g.ring - 1, g.ring);
    ModIs(vb % g.ring, g.ring, 0, vb % g.ring);
    ModDist(vc, vb + g.ring - 1, g.ring);
  }

  // the two pages a driver computes are the page before, going round
  lemma BehindIs(g: Geom, next: nat)
    requires g.ring > 0 && g.start <= next < g.Stop()
    ensures g.Behind(next) == (if next == g.start then g.Stop() else next) - 1
  {
    if next == g.start {
      ModIs(g.ring - 1, g.ring, 0, g.ring - 1);
    } else {
      ModIs(next - g.start + g.ring - 1, g.ring, 1, next - g.start - 1);
    }
  }

  // the byte i on from byte count b lies at most one turn further round
  lemma AddrOn(g: Geom, b: nat, i: nat)
    requires g.Ok() && i < g.ring * PAGE
    ensures g.Addr(b + i) == g.Addr(b) + i - if g.Addr(b) + i < g.Stop() * PAGE then 0 else g.ring * PAGE
  {
    ModAdd(b, i, g.ring * PAGE);
  }

  // the page a frame's pages lead to
  lemma NextPage(g: Geom, v: nat, n: nat)
    requires g.Ok() && n <= g.ring
    ensures g.start + (g.Page(v) - g.start + n) % g.ring == g.Page(v + n)
  {
    ModAdd(v, n, g.ring);
    ModAdd(v % g.ring, n, g.ring);
    ModIs(v % g.ring, g.ring, 0, v % g.ring);
  }

  // The driver's test of a header: the next page outside the ring, or not as far on as the count needs.
  predicate BadHeader(g: Geom, rxnext: nat, nxt: nat, cnt: nat)
    requires g.ring > 0
  {
    var dist := (nxt - rxnext + g.ring) % g.ring;
    nxt < g.start || nxt >= g.Stop() || Pages(cnt) == 0 || (dist != Pages(cnt) && dist != Pages(cnt) + 1)
  }

  // the bytes of the ring from byte count b on
  ghost function Run(m: seq<Byte>, g: Geom, b: nat, n: nat): (s: seq<Byte>)
    requires g.Ok() && |m| == 256 * PAGE
    ensures |s| == n
  {
    seq<Byte>(n, i requires 0 <= i < n => At(m, g, b + i))
  }

  // the header at page count v: the next frame's page, and the count
  ghost function HeaderPage(m: seq<Byte>, g: Geom, v: nat): nat
    requires g.Ok() && |m| == 256 * PAGE
  {
    At(m, g, v * PAGE + 1)
  }

  ghost function HeaderCount(m: seq<Byte>, g: Geom, v: nat): nat
    requires g.Ok() && |m| == 256 * PAGE
  {
    At(m, g, v * PAGE + 2) as nat + 256 * At(m, g, v * PAGE + 3) as nat
  }

  // the bytes behind the header that count says
  ghost function Data(m: seq<Byte>, g: Geom, v: nat, cnt: nat): (s: seq<Byte>)
    requires g.Ok() && |m| == 256 * PAGE
    ensures |s| == if cnt < 4 then 0 else cnt - 4
  {
    Run(m, g, v * PAGE + 4, if cnt < 4 then 0 else cnt - 4)
  }

  // what becomes of the driver when it takes the frame of that header
  ghost function Taken(d: Driver, probe: bool, m: seq<Byte>, g: Geom, v: nat): Driver
    requires g.Ok() && |m| == 256 * PAGE
  {
    var cnt := HeaderCount(m, g, v);
    Accept(d, probe, At(m, g, v * PAGE), cnt, Data(m, g, v, cnt))
  }

  // A frame that lies in the ring reads as what it is, and its header is never a bad one.
  lemma LiesReads(m: seq<Byte>, g: Geom, v: nat, f: Frame)
    requires g.Ok() && |m| == 256 * PAGE && Lies(m, g, v, f) && Span(f) < g.ring
    ensures At(m, g, v * PAGE) == f.status && Run(m, g, v * PAGE + 4, |f.data|) == f.data
    ensures HeaderPage(m, g, v) == g.Page(v + Span(f)) && HeaderCount(m, g, v) == Count(f)
    ensures !BadHeader(g, g.Page(v), HeaderPage(m, g, v), HeaderCount(m, g, v))
  {
    hide At, BadHeader;
    var img := Image(f, g.Page(v + Span(f)));
    assert At(m, g, v * PAGE + 0) == img[0] && At(m, g, v * PAGE + 1) == img[1];
    assert At(m, g, v * PAGE + 2) == img[2] && At(m, g, v * PAGE + 3) == img[3];
    forall i | 0 <= i < Count(f) - 4 ensures Run(m, g, v * PAGE + 4, Count(f) - 4)[i] == f.data[i] {
      assert At(m, g, v * PAGE + 4 + i) == img[4 + i];
    }
    assert Run(m, g, v * PAGE + 4, Count(f) - 4) == f.data;
    GoodHeader(g, v, f);
  }

  lemma GoodHeader(g: Geom, v: nat, f: Frame)
    requires g.Ok() && Span(f) < g.ring
    ensures !BadHeader(g, g.Page(v), g.Page(v + Span(f)), Count(f))
  {
    ModDist(v, v + Span(f), g.ring);
  }

  // the frames that arrive in one turn of the drain loop: before it looks at CURR, reads the header, reads
  // the data, reads the rest of data that wraps, and writes BNRY
  datatype Turn = Turn(
    look: seq<Frame>, header: seq<Frame>, data: seq<Frame>, wrap: seq<Frame>, last: seq<Frame>,
    clkdue: bool)
  {
    predicate Fit() {
      AllStorable(look) && AllStorable(header) && AllStorable(data) && AllStorable(wrap) && AllStorable(last)
    }
  }

  predicate AllStorable(fs: seq<Frame>) {
    forall f | f in fs :: Storable(f)
  }

  lemma AgreeSelf(m: seq<Byte>, g: Geom, v: nat, vc: nat)
    requires g.Ok() && |m| == 256 * PAGE
    ensures Agree(m, m, g, v, vc)
  {
  }

  lemma AgreeOn(m: seq<Byte>, m1: seq<Byte>, m2: seq<Byte>, g: Geom, v: nat, vc: nat, vc1: nat)
    requires g.Ok() && |m| == |m1| == |m2| == 256 * PAGE && vc <= vc1
    ensures Agree(m, m1, g, v, vc) && Agree(m1, m2, g, v, vc1) ==> Agree(m, m2, g, v, vc)
  {
  }

  lemma AtIs(m: seq<Byte>, g: Geom, b: nat)
    requires g.Ok() && |m| == 256 * PAGE
    ensures At(m, g, b) == m[g.Addr(b)]
  {
  }

  class Nic {
    const g: Geom
    const probe: bool              // crcprobe
    const mem: array<Byte>         // the chip's buffer memory
    const rxbuf: array<Byte>
    var curr: nat                  // chip registers
    var bnry: int
    var rxnext: nat
    var nocrc: bool
    var rxbad: nat
    var ierrors: nat
    var input: seq<seq<Byte>>      // the frames given to nu_input
    ghost var vb: nat              // page counts: behind which BNRY is,
    ghost var vr: nat              // the next page to read,
    ghost var vc: nat              // and CURR
    ghost var pending: seq<Frame>  // in the ring
    ghost var taken: seq<Frame>    // out of it
    ghost var stored: seq<Frame>   // all the chip ever stored
    ghost const d0: Driver

    // the ring, whatever the driver is doing with the frame it reads
    ghost predicate Ring()
      reads this, mem
    {
      && mem.Length == 256 * PAGE && rxbuf.Length == MAXFRAME + 4 && rxbuf != mem
      && Shows(g, mem[..], rxnext, bnry, curr, vb, vr, vc, pending)
      && stored == taken + pending
    }

    ghost predicate Valid()
      reads this, mem
    {
      Ring() && vb == vr && Now() == AcceptAll(d0, probe, taken)
    }

    function Now(): Driver
      reads this
    {
      Driver(nocrc, input, ierrors)
    }

    // the receive part of nu_init
    constructor (start: nat, stop: nat, probe: bool)
      requires start + 2 <= stop <= 256
      ensures Valid() && fresh(mem) && fresh(rxbuf)
      ensures g == Geom(start, stop - start) && this.probe == probe && d0 == Driver(false, [], 0)
      ensures stored == [] && input == [] && rxbad == 0
    {
      g := Geom(start, stop - start);
      this.probe := probe;
      mem, rxbuf := new Byte[256 * PAGE], new Byte[MAXFRAME + 4];
      bnry, curr, rxnext := stop - 1, start, start;
      nocrc, rxbad, ierrors, input := false, 0, 0, [];
      vb, vr, vc, pending, taken, stored := 0, 0, 0, [], [], [];
      d0 := Driver(false, [], 0);
      new;
      BehindIs(g, start);
    }

    // The chip receives a frame: stored at CURR if its pages end before BNRY, else lost.
    method Receive(f: Frame) returns (ok: bool)
      requires Ring() && Storable(f)
      modifies mem, this`curr, this`vc, this`pending, this`stored
      ensures Ring() && Agree(old(mem[..]), mem[..], g, vr, old(vc)) && vc >= old(vc)
      ensures ok <==> Span(f) <= (bnry - old(curr) + g.ring) % g.ring
      ensures ok ==> stored == old(stored) + [f] && pending == old(pending) + [f]
      ensures !ok ==> mem[..] == old(mem[..]) && curr == old(curr)
      ensures !ok ==> stored == old(stored) && pending == old(pending)
    {
      hide Shows, Storable, Pages, Geom.Page, Geom.Behind;
      ShowsFacts(g, mem[..], rxnext, bnry, curr, vb, vr, vc, pending);
      ChipSpace(g, vb, vc);
      var space := (bnry - curr + g.ring) % g.ring;
      if Span(f) > space {
        return false;
      }
      StoreFrame(f);
      return true;
    }

    // the frame in the free pages, and CURR behind it
    method StoreFrame(f: Frame)
      requires Ring() && Storable(f) && vc + Span(f) < vb + g.ring
      modifies mem, this`curr, this`vc, this`pending, this`stored
      ensures Ring() && Agree(old(mem[..]), mem[..], g, vr, old(vc)) && vc >= old(vc)
      ensures stored == old(stored) + [f] && pending == old(pending) + [f]
    {
      hide Shows, Lies, Image, Agree, Pages, Geom.Page;
      ghost var m0 := mem[..];
      ShowsFacts(g, m0, rxnext, bnry, curr, vb, vr, vc, pending);
      NextPage(g, vc, Span(f));
      var next := g.start + (curr - g.start + Span(f)) % g.ring;
      var img := Image(f, next);
      StoreImage(img, f);
      StoreShows(g, m0, mem[..], rxnext, bnry, curr, vb, vr, vc, pending, f);
      curr := next;
      vc := vc + Span(f);
      pending := pending + [f];
      stored := stored + [f];
    }

    // frames that arrive while the driver is elsewhere; none can when the ring is not what it should be
    method Arrive(fs: seq<Frame>)
      requires fs != [] ==> Ring() && AllStorable(fs)
      requires mem.Length == 256 * PAGE && g.Ok()
      modifies mem, this`curr, this`vc, this`pending, this`stored
      ensures old(Ring()) ==> Ring() && Agree(old(mem[..]), mem[..], g, vr, old(vc)) && vc >= old(vc)
      ensures old(stored) <= stored && old(pending) <= pending
      ensures fs == [] ==> mem[..] == old(mem[..]) && curr == old(curr)
    {
      hide Shows, Agree;
      ghost var ring := Ring();
      if ring {
        AgreeSelf(mem[..], g, vr, vc);
      }
      for i := 0 to |fs|
        invariant ring ==> Ring() && Agree(old(mem[..]), mem[..], g, vr, old(vc)) && vc >= old(vc)
        invariant old(stored) <= stored && old(pending) <= pending
        invariant fs == [] ==> mem[..] == old(mem[..]) && curr == old(curr)
      {
        ghost var m1, vc1 := mem[..], vc;
        var ok := Receive(fs[i]);
        AgreeOn(old(mem[..]), m1, mem[..], g, vr, old(vc), vc1);
      }
    }

    method StoreImage(img: seq<Byte>, ghost f: Frame)
      requires mem.Length == 256 * PAGE && g.Ok() && curr == g.Page(vc) && vb <= vr <= vc && Storable(f)
      requires vc + Span(f) < vb + g.ring && img == Image(f, g.Page(vc + Span(f)))
      modifies mem
      ensures Agree(old(mem[..]), mem[..], g, vr, vc) && Lies(mem[..], g, vc, f)
    {
      hide At;
      ModGroup(vc, g.ring, PAGE);
      var a := curr * PAGE;
      var k := 0;
      while k < |img|
        invariant 0 <= k <= |img|
        invariant Agree(old(mem[..]), mem[..], g, vr, vc)
        invariant forall b: nat {:trigger At(mem[..], g, b)} | vc * PAGE <= b < vc * PAGE + k ::
          At(mem[..], g, b) == img[b - vc * PAGE]
      {
        StoreByte(mem[..], g, vc * PAGE + k, img[k], vr * PAGE);
        PutByte(a, k, img[k]);
        k := k + 1;
      }
    }

    // the byte k on from a, going round the ring
    method PutByte(a: nat, k: nat, x: Byte)
      requires mem.Length == 256 * PAGE && g.Ok() && a == g.Page(vc) * PAGE && k < g.ring * PAGE
      modifies mem
      ensures g.Addr(vc * PAGE + k) < 256 * PAGE && mem[..] == old(mem[..])[g.Addr(vc * PAGE + k) := x]
    {
      ModGroup(vc, g.ring, PAGE);
      ModAdd(vc * PAGE, k, g.ring * PAGE);
      var at := if a + k < g.Stop() * PAGE then a + k else a + k - g.ring * PAGE;
      assert at == g.Addr(vc * PAGE + k);
      mem[at] := x;
      assert mem[..] == old(mem[..])[at := x];
    }

    // n bytes of the buffer memory
    method RdMem(a: nat, buf: array<Byte>, at: nat, n: nat)
      requires a + n <= mem.Length && at + n <= buf.Length && buf != mem
      modifies buf
      ensures forall i | 0 <= i < buf.Length ::
        buf[i] == if at <= i < at + n then mem[a + (i - at)] else old(buf[i])
    {
      var i := 0;
      while i < n
        invariant 0 <= i <= n
        invariant forall k | 0 <= k < buf.Length ::
          buf[k] == if at <= k < at + i then mem[a + (k - at)] else old(buf[k])
      {
        buf[at + i] := mem[a + i];
        i := i + 1;
      }
    }

    // n bytes of the ring from page p, offset off on, in two pieces if they wrap; frames may arrive between
    method RdRing(p: nat, off: nat, buf: array<Byte>, n: nat, wrap: seq<Frame>, ghost v: nat)
      requires mem.Length == 256 * PAGE && g.Ok() && buf != mem
      requires p == g.Page(v) && off + n <= g.ring * PAGE && n <= buf.Length
      requires wrap != [] ==> Ring() && v == vr && vr * PAGE + off + n <= vc * PAGE && AllStorable(wrap)
      modifies buf, mem, this`curr, this`vc, this`pending, this`stored
      ensures buf[..n] == Run(old(mem[..]), g, v * PAGE + off, n)
      ensures old(Ring()) ==> Ring() && Agree(old(mem[..]), mem[..], g, vr, old(vc)) && vc >= old(vc)
      ensures old(stored) <= stored && old(pending) <= pending
      ensures wrap == [] ==> mem[..] == old(mem[..]) && curr == old(curr)
    {
      hide Shows;
      var a, top := p * PAGE + off, g.Stop() * PAGE;
      if a >= top {
        a := a - (top - g.start * PAGE);
      }
      var k := if top - a > n then n else top - a;
      ModGroup(v, g.ring, PAGE);
      ModAdd(v * PAGE, off, g.ring * PAGE);
      assert a == g.Addr(v * PAGE + off);
      ghost var m0, lim := mem[..], vc;
      RdMem(a, buf, 0, k);
      Arrive(wrap);
      ghost var m1 := mem[..];
      RdMem(g.start * PAGE, buf, k, n - k);
      forall i | 0 <= i < n ensures buf[i] == At(m0, g, v * PAGE + off + i) {
        AddrOn(g, v * PAGE + off, i);
        if i >= k && wrap != [] {
          assert At(m1, g, v * PAGE + off + i) == At(m0, g, v * PAGE + off + i);
        }
      }
    }

    // One turn of the drain loop, whatever the ring holds: a header that makes no sense drops
    // everything up to CURR; any other frame is taken, delivered or counted as an error.
    // On a ring that is what it should be (live), frames may arrive on the way.
    method Take(t: Turn, ghost v: nat, ghost live: bool) returns (ok: bool)
      requires mem.Length == 256 * PAGE && g.Ok() && rxbuf.Length == MAXFRAME + 4 && rxbuf != mem
      requires rxnext == g.Page(v) && g.start <= curr < g.Stop()
      requires if live then Valid() && pending != [] && v == vr && t.Fit() else t.data == t.wrap == t.last == []
      modifies this, mem, rxbuf
      ensures !live ==> mem[..] == old(mem[..]) && curr == old(curr)
      ensures !live ==> ok == !BadHeader(g, old(rxnext), HeaderPage(mem[..], g, v), HeaderCount(mem[..], g, v))
      ensures !live ==> rxnext == (if ok then HeaderPage(mem[..], g, v) else curr) && bnry == g.Behind(rxnext)
      ensures !live ==> rxbad == old(rxbad) + (if ok then 0 else 1)
      ensures !live ==> Now() == if ok then Taken(old(Now()), probe, mem[..], g, v) else old(Now())
      ensures live ==> Valid() && ok && rxbad == old(rxbad) && old(stored) <= stored
      ensures live ==> taken == old(taken) + [old(pending)[0]] && old(pending)[1..] <= pending
    {
      hide At, Accept, AcceptAll, Lies, HeaderPage, HeaderCount, Agree, Shows;
      if live {
        OldestReads();
      }
      var status, nxt, cnt := ReadHeader(v);
      var dist := (nxt - rxnext + g.ring) % g.ring;
      if nxt < g.start || nxt >= g.Stop() || Pages(cnt) == 0 || (dist != Pages(cnt) && dist != Pages(cnt) + 1) {
        rxbad := rxbad + 1;
        rxnext := curr;
        SetBnry();
        return false;
      }
      TakeRest(t, status, nxt, cnt, v, live);
      return true;
    }

    // the frame behind a header that makes sense, and the ring past it
    method TakeRest(t: Turn, status: Byte, nxt: nat, cnt: nat, ghost v: nat, ghost live: bool)
      requires mem.Length == 256 * PAGE && g.Ok() && rxbuf.Length == MAXFRAME + 4 && rxbuf != mem
      requires rxnext == g.Page(v) && g.start <= nxt < g.Stop() && Pages(cnt) < g.ring
      requires if live then Valid() && pending != [] && v == vr && t.Fit() else t.data == t.wrap == t.last == []
      requires live ==> status == pending[0].status && cnt == Count(pending[0]) && nxt == g.Page(vr + Span(pending[0]))
      modifies this`curr, this`rxnext, this`bnry, this`ierrors, this`nocrc, this`input, mem, rxbuf
      modifies this`vb, this`vr, this`vc, this`taken, this`pending, this`stored
      ensures !live ==> mem[..] == old(mem[..]) && curr == old(curr) && rxnext == nxt && bnry == g.Behind(rxnext)
      ensures !live ==> Now() == Accept(old(Now()), probe, status, cnt, Data(mem[..], g, v, cnt))
      ensures live ==> Valid() && old(stored) <= stored
      ensures live ==> taken == old(taken) + [old(pending)[0]] && old(pending)[1..] <= pending
    {
      hide At, Accept, AcceptAll, Lies, HeaderPage, HeaderCount, Agree, Shows, BadHeader, Geom.Page, Pages;
      Arrive(t.data);
      ghost var f := if live then pending[0] else Frame(0, [], false);
      if live {
        OldestReads();
        AcceptLast(d0, probe, taken, f);
      }
      Deliver(status, cnt, t.wrap, v);
      Advance(nxt, t.last, f, live);
    }

    // on to the next page to read, and BNRY behind it
    method Advance(nxt: nat, last: seq<Frame>, ghost f: Frame, ghost live: bool)
      requires mem.Length == 256 * PAGE && g.Ok() && g.start <= nxt < g.Stop() && AllStorable(last)
      requires if live then Ring() && pending != [] && f == pending[0] && nxt == g.Page(vr + Span(f)) else last == []
      modifies mem, this`curr, this`rxnext, this`bnry, this`vb, this`vr, this`vc, this`taken, this`pending, this`stored
      ensures !live ==> mem[..] == old(mem[..]) && curr == old(curr) && rxnext == nxt && bnry == g.Behind(rxnext)
      ensures live ==> Ring() && vb == vr && old(stored) <= stored
      ensures live ==> taken == old(taken) + [f] && old(pending)[1..] <= pending
    {
      hide Shows, Geom.Page, Agree, Pages;
      if live {
        PassOldest(f);
      }
      rxnext := nxt;
      Arrive(last);
      if live {
        BnryRing();
        vb := vr;
      }
      SetBnry();
    }

    // the oldest frame, out of the ring in the ghost state; rxnext is to follow
    ghost method PassOldest(f: Frame)
      requires Ring() && pending != [] && f == pending[0]
      modifies this`vr, this`taken, this`pending
      ensures vr == old(vr) + Span(f) && taken == old(taken) + [f] && pending == old(pending)[1..]
      ensures stored == taken + pending && Shows(g, mem[..], g.Page(vr), bnry, curr, vb, vr, vc, pending)
    {
      hide Shows;
      PassShows(g, mem[..], rxnext, bnry, curr, vb, vr, vc, pending);
      vr := vr + Span(f);
      taken := taken + [f];
      pending := pending[1..];
    }

    // the oldest frame reads as what it is
    lemma OldestReads()
      requires Ring() && pending != []
      ensures var f := pending[0];
        && vr * PAGE + Count(f) <= vc * PAGE && 0 < Pages(Count(f)) < g.ring
        && At(mem[..], g, vr * PAGE) == f.status && HeaderCount(mem[..], g, vr) == Count(f)
        && HeaderPage(mem[..], g, vr) == g.Page(vr + Span(f)) && Run(mem[..], g, vr * PAGE + 4, |f.data|) == f.data
        && !BadHeader(g, g.Page(vr), g.Page(vr + Span(f)), Count(f))
    {
      hide At, Lies, Shows;
      ShowsFacts(g, mem[..], rxnext, bnry, curr, vb, vr, vc, pending);
      LiesReads(mem[..], g, vr, pending[0]);
    }

    lemma BnryRing()
      requires Ring()
      ensures Shows(g, mem[..], rxnext, g.Behind(rxnext), curr, vr, vr, vc, pending)
    {
    }

    method ReadHeader(ghost v: nat) returns (status: Byte, nxt: nat, cnt: nat)
      requires mem.Length == 256 * PAGE && g.Ok() && rxnext == g.Page(v)
      ensures status == At(mem[..], g, v * PAGE)
      ensures nxt == HeaderPage(mem[..], g, v) && cnt == HeaderCount(mem[..], g, v)
    {
      hide At;
      var h := new Byte[4];
      var a := rxnext * PAGE;
      ModGroup(v, g.ring, PAGE);
      RdMem(a, h, 0, 4);
      forall i | 0 <= i < 4 ensures h[i] == At(mem[..], g, v * PAGE + i) {
        AddrOn(g, v * PAGE, i);
        AtIs(mem[..], g, v * PAGE + i);
      }
      status, nxt, cnt := h[0], h[1], h[2] as nat + 256 * h[3] as nat;
    }

    // the frame of that header, to nu_input or to the errors
    method Deliver(status: Byte, cnt: nat, wrap: seq<Frame>, ghost v: nat)
      requires mem.Length == 256 * PAGE && g.Ok() && rxbuf.Length == MAXFRAME + 4 && rxbuf != mem
      requires rxnext == g.Page(v) && Pages(cnt) < g.ring
      requires wrap != [] ==> Ring() && v == vr && vr * PAGE + cnt <= vc * PAGE && AllStorable(wrap)
      modifies this`ierrors, this`nocrc, this`input, rxbuf, mem, this`curr, this`vc, this`pending, this`stored
      ensures Now() == Accept(old(Now()), probe, status, cnt, Data(old(mem[..]), g, v, cnt))
      ensures old(Ring()) ==> Ring() && old(stored) <= stored && old(pending) <= pending
      ensures wrap == [] ==> mem[..] == old(mem[..]) && curr == old(curr)
    {
      hide Shows, At, Agree;
      if probe && cnt >= 4 + MINFRAME && cnt < 4 + MINFRAME + 4 {
        nocrc := true;
      }
      var crc := if nocrc then 0 else 4;
      if cnt < 4 + MINFRAME + crc || cnt > 4 + MAXFRAME + crc {
        ierrors := ierrors + 1;
      } else if Received(status) {
        RdRing(rxnext, 4, rxbuf, cnt - 4, wrap, v);
        assert rxbuf[..cnt - 4][..cnt - 4 - crc] == rxbuf[..cnt - 4 - crc];
        input := input + [rxbuf[..cnt - 4 - crc]];
      } else {
        ierrors := ierrors + 1;
      }
    }

    // BNRY goes to the page before the next one to read, going round
    method SetBnry()
      requires g.ring > 0 && g.start <= rxnext < g.Stop()
      modifies this`bnry
      ensures bnry == g.start + (rxnext - g.start + g.ring - 1) % g.ring
    {
      BehindIs(g, rxnext);
      bnry := (if rxnext == g.start then g.Stop() else rxnext) - 1;
    }

    // CURR and rxnext name the same page exactly when the ring is empty
    lemma EmptyRing()
      requires Valid()
      ensures curr == rxnext <==> pending == []
    {
      if vr < vc {
        ModDistinct(vr, vc, g.ring);
      }
    }

    // The ring is a queue: what nu_input was given, then what is still in the ring, is everything
    // the chip ever stored, byte for byte.
    lemma Fifo()
      requires Valid() && d0 == Driver(false, [], 0) && forall f | f in stored :: Good(f)
      ensures forall f | f in pending :: Good(f)
      ensures input + Payloads(pending) == Payloads(stored) && ierrors == 0
    {
      PayloadsConcat(taken, pending);
      GoodChip(d0, probe, taken);
      assert [] + Payloads(taken) == Payloads(taken);
    }

    /** nu_rxdrain, with frames arriving all the while.  The count of frames taken is returned; the loop
        ends early only when the ring is empty or the clock is due. */
    method Drain(turns: seq<Turn>) returns (n: nat)
      requires Valid() && |turns| == RXBURST && forall t | t in turns :: t.Fit()
      modifies this, mem, rxbuf
      ensures Valid() && rxbad == old(rxbad)
      ensures n <= RXBURST && |taken| == |old(taken)| + n && old(taken) <= taken && old(stored) <= stored
      ensures n < RXBURST ==> pending == [] || (n > 0 && turns[n].clkdue)
    {
      hide Shows, AcceptAll, Agree;
      n := 0;
      while n < RXBURST
        invariant Valid() && rxbad == old(rxbad)
        invariant n <= RXBURST && |taken| == |old(taken)| + n && old(taken) <= taken && old(stored) <= stored
      {
        var t := turns[n];
        assert t in turns && t.Fit();
        if n > 0 && t.clkdue {
          break;
        }
        RingFacts();
        Arrive(t.look);
        RingFacts();
        var c := curr;
        if c < g.start || c >= g.Stop() {
          assert false;
        }
        EmptyRing();
        if c == rxnext {
          break;
        }
        Arrive(t.header);
        RingFacts();
        var ok := Take(t, vr, true);
        n := n + 1;
      }
    }

    lemma RingFacts()
      requires Ring()
      ensures g.Ok() && mem.Length == 256 * PAGE && vr <= vc < vr + g.ring && rxnext == g.Page(vr) && curr == g.Page(vc)
    {
    }
  }
}
