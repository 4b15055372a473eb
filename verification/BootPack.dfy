/**
 Boot modules: files the boot loader left in memory, moved to the top of a
 memory range before the kernel takes the rest.  The moves are made in place,
 byte by byte, in the same flat memory the modules still to move lie in.
 */
module BootPack {
  import opened Basics
  import opened BootTable
  import opened BootPile

  // the bytes of a module
  ghost predicate Fits(b: BootMod, m: seq<Byte>) {
    b.addr + b.size <= |m|
  }

  ghost function Bytes(b: BootMod, m: seq<Byte>): seq<Byte>
    requires Fits(b, m)
  {
    m[b.addr..b.addr + b.size]
  }

  // m' is m with the n bytes at src copied to dst
  ghost predicate Moved(m: seq<Byte>, m': seq<Byte>, src: nat, dst: nat, n: nat) {
    && |m'| == |m| && src + n <= |m| && dst + n <= |m|
    && m'[dst..dst + n] == m[src..src + n]
    && forall x | 0 <= x < |m| && !(dst <= x < dst + n) :: m'[x] == m[x]
  }

  lemma MovedClear(m: seq<Byte>, m': seq<Byte>, src: nat, dst: nat, n: nat, b: BootMod)
    requires Moved(m, m', src, dst, n) && Fits(b, m)
    requires n == 0 || b.size == 0 || b.addr + b.size <= dst || dst + n <= b.addr
    ensures Bytes(b, m') == Bytes(b, m)
  {
  }

  // one byte of the copy
  lemma MovedAt(m: seq<Byte>, m': seq<Byte>, src: nat, dst: nat, n: nat, x: nat)
    requires Moved(m, m', src, dst, n) && dst <= x < dst + n
    ensures |m'| == |m| && src + (x - dst) < |m| && m'[x] == m[src + (x - dst)]
  {
    assert m'[x] == m'[dst..dst + n][x - dst];
  }

  // a snapshot of the module table and memory
  datatype Snap = Snap(bm: seq<BootMod>, st: seq<Status>, m: seq<Byte>)

  // the table and the memory dlm_bootpack is given
  ghost predicate Loaded(s: Snap, lo: nat, hi: nat) {
    Tabled(s.bm, s.st, lo, hi) && |s.m| == ADDRESSES
  }

  // module i has been placed since s0
  ghost predicate New(s0: Snap, s: Snap, i: nat)
    requires i < |s0.st| && i < |s.st|
  {
    !s0.st[i].Placed? && s.st[i].Placed?
  }

  // placed at an aligned address in [top, hi), or where it was
  ghost predicate Kept(s0: Snap, s: Snap, top: nat, hi: nat, i: nat)
    requires i < |s0.bm| == |s0.st| == |s.bm| == |s.st|
  {
    var b0, b := s0.bm[i], s.bm[i];
    if New(s0, s, i) then b.size == b0.size && b.addr % 4 == 0 && top <= b.addr && b.addr + b.size <= hi else b == b0
  }

  // and its bytes are the original ones
  ghost predicate Safe(s0: Snap, s: Snap, i: nat)
    requires i < |s0.bm| && i < |s.bm|
  {
    Fits(s0.bm[i], s0.m) && Fits(s.bm[i], s.m) && Bytes(s.bm[i], s.m) == Bytes(s0.bm[i], s0.m)
  }

  ghost predicate Sizes(s0: Snap, s: Snap) {
    |s0.st| == |s.bm| == |s.st| == |s0.bm| && |s.m| == |s0.m|
  }

  /** What packing keeps and promises: placed modules settled and apart, every other module untouched; but
      for the bytes of module b. */
  ghost predicate PackedBut(s0: Snap, s: Snap, top: nat, hi: nat, b: int) {
    && Sizes(s0, s)
    && (forall i | 0 <= i < |s0.bm| :: Kept(s0, s, top, hi, i) && (i != b ==> Safe(s0, s, i)))
    && (forall i, j | 0 <= i < j < |s0.bm| && New(s0, s, i) && New(s0, s, j) :: Apart(s.bm[i], s.bm[j]))
    && (forall i | 0 <= i < |s0.bm| && s0.st[i].Placed? :: s.st[i].Placed?)
  }

  ghost predicate Packed(s0: Snap, s: Snap, top: nat, hi: nat) {
    PackedBut(s0, s, top, hi, -1)
  }

  lemma PackedIs(s0: Snap, s: Snap, top: nat, hi: nat, b: nat)
    requires PackedBut(s0, s, top, hi, b) && b < |s0.bm|
    ensures Packed(s0, s, top, hi) <==> Safe(s0, s, b)
  {
  }

  // module j of s, moved to d
  ghost predicate PlacedAt(s: Snap, s': Snap, j: nat, d: nat) {
    && j < |s.bm| && |s.st| == |s.bm|
    && s'.bm == s.bm[j := BootMod(d, s.bm[j].size)]
    && s'.st == s.st[j := Placed]
    && Moved(s.m, s'.m, s.bm[j].addr, d, s.bm[j].size)
  }

  // module j has no room, and is marked so
  ghost predicate Refused(s: Snap, s': Snap, j: nat, lo: nat, top: nat) {
    && j < |s.bm| == |s.st| && lo <= top && !Room(s.bm[j].size, lo, top)
    && s' == Snap(s.bm, s.st[j := NoRoom], s.m)
  }

  // module j is placed just below top, at d
  ghost predicate Goes(s0: Snap, s: Snap, s': Snap, top: nat, d: nat, hi: nat, j: nat) {
    && Sizes(s0, s) && j < |s0.bm| && !s0.st[j].Placed? && !s.st[j].Placed? && s.bm[j] == s0.bm[j]
    && s.bm[j].size <= top <= hi && d == Align(top - s.bm[j].size) && PlacedAt(s, s', j, d)
  }

  // A module keeps its bytes when another is placed clear of it, or it is placed itself.
  lemma GoesSafe(s0: Snap, s: Snap, s': Snap, top: nat, d: nat, hi: nat, j: nat, i: nat)
    requires Goes(s0, s, s', top, d, hi, j) && i < |s0.bm| && Kept(s0, s, top, hi, i) && Safe(s0, s, i)
    requires i == j || New(s0, s, i) || s.bm[j].size == 0 || s0.bm[i].size == 0 || Outside(s0.bm[i], d, top)
    ensures |s'.bm| == |s0.bm| && Safe(s0, s', i)
  {
    if i != j {
      MovedClear(s.m, s'.m, s.bm[j].addr, d, s.bm[j].size, s.bm[i]);
    }
  }

  // Placing a module clear of every module not yet placed keeps what has been packed.
  lemma GoesPacked(s0: Snap, s: Snap, s': Snap, top: nat, d: nat, hi: nat, b: int, j: nat)
    requires PackedBut(s0, s, top, hi, b) && Goes(s0, s, s', top, d, hi, j)
    requires s.bm[j].size > 0 ==> forall i | 0 <= i < |s0.bm| && i != j && i != b && !New(s0, s, i) ::
      s0.bm[i].size == 0 || Outside(s0.bm[i], d, top)
    ensures PackedBut(s0, s', d, hi, b)
  {
    hide Safe, Apart;
    GoesApart(s0, s, s', top, d, hi, b, j);
    forall i | 0 <= i < |s0.bm| && i != b ensures Safe(s0, s', i) {
      assert Kept(s0, s, top, hi, i);
      GoesSafe(s0, s, s', top, d, hi, j, i);
    }
  }

  lemma GoesApart(s0: Snap, s: Snap, s': Snap, top: nat, d: nat, hi: nat, b: int, j: nat)
    requires PackedBut(s0, s, top, hi, b) && Goes(s0, s, s', top, d, hi, j)
    ensures Sizes(s0, s')
    ensures forall i, k | 0 <= i < k < |s0.bm| && New(s0, s', i) && New(s0, s', k) :: Apart(s'.bm[i], s'.bm[k])
    ensures forall i | 0 <= i < |s0.bm| :: Kept(s0, s', d, hi, i)
  {
    hide Safe;
    forall i | 0 <= i < |s0.bm| ensures Kept(s0, s', d, hi, i) {
      assert Kept(s0, s, top, hi, i);
    }
    forall i, k | 0 <= i < k < |s0.bm| && New(s0, s', i) && New(s0, s', k) ensures Apart(s'.bm[i], s'.bm[k]) {
      assert Kept(s0, s, top, hi, i) && Kept(s0, s, top, hi, k);
      assert i != j && k != j ==> New(s0, s, i) && New(s0, s, k);
    }
  }

  lemma PackedSizes(s0: Snap, s: Snap, top: nat, hi: nat, b: int)
    requires PackedBut(s0, s, top, hi, b)
    ensures Sizes(s0, s) && forall i | 0 <= i < |s0.bm| :: Kept(s0, s, top, hi, i)
  {
  }

  lemma FitsAt(s: Snap, lo: nat, hi: nat, i: nat)
    requires Loaded(s, lo, hi) && i < |s.bm|
    ensures Sized(s.bm[i]) && Fits(s.bm[i], s.m)
  {
  }

  // ----- between two placements

  // module i had no room, and has none
  ghost predicate Left(s0: Snap, s: Snap, i: nat, lo: nat, top: nat)
    requires i < |s.st| == |s.bm| == |s0.bm| && lo <= top
  {
    s.st[i].NoRoom? && s.bm[i] == s0.bm[i] && !Room(s.bm[i].size, lo, top)
  }

  /** Between two placements: nothing is lost but possibly bytes of the victim, and what has been tried is
      placed or has no room. */
  ghost predicate Going(s0: Snap, s: Snap, tried: seq<bool>, lo: nat, top: nat, hi: nat, b: int) {
    && Loaded(s0, lo, hi) && lo <= top <= hi && (top == hi || top % 4 == 0) && Victim(s0.bm, lo, hi, b)
    && PackedBut(s0, s, top, hi, b) && |tried| == |s0.bm|
    && (forall i | 0 <= i < |tried| && !tried[i] :: !s.st[i].Placed? && !s0.st[i].Placed?)
    && (forall i | 0 <= i < |tried| && tried[i] && !s.st[i].Placed? :: Left(s0, s, i, lo, top))
  }

  // what the methods need of it: the 32-bit test for whole ones is exact
  lemma GoingFacts(s0: Snap, s: Snap, tried: seq<bool>, lo: nat, top: nat, hi: nat, b: int)
    requires Going(s0, s, tried, lo, top, hi, b)
    ensures |s.bm| == |s.st| == |tried| == |s0.bm| == |s0.st| && |s.m| == ADDRESSES && lo <= top <= hi < ADDRESSES
    ensures -1 <= b < |tried|
    ensures forall i | 0 <= i < |tried| && !tried[i] :: Fresh(s0, s, lo, top, i)
  {
    forall i | 0 <= i < |tried| && !tried[i] ensures Fresh(s0, s, lo, top, i) {
      assert Kept(s0, s, top, hi, i) && Sized(s0.bm[i]);
    }
  }

  ghost predicate Fresh(s0: Snap, s: Snap, lo: nat, top: nat, i: nat)
    requires i < |s.bm| == |s.st| == |s0.bm| == |s0.st|
  {
    && !s.st[i].Placed? && !s0.st[i].Placed? && s.bm[i] == s0.bm[i] && Fits(s.bm[i], s.m)
    && (Eligible(s.bm[i], lo, top, true) <==> Inside(s.bm[i], lo, top))
  }

  lemma RoomShrinks(size: nat, lo: nat, top: nat, top': nat)
    requires lo <= top' <= top && !Room(size, lo, top)
    ensures !Room(size, lo, top')
  {
  }

  // the bookkeeping of a placement
  lemma GoingOn(s0: Snap, s: Snap, s': Snap, tried: seq<bool>, lo: nat, top: nat, d: nat, hi: nat, b: int, j: nat)
    requires Going(s0, s, tried, lo, top, hi, b) && j < |tried| && !tried[j] && Goes(s0, s, s', top, d, hi, j)
    requires Room(s.bm[j].size, lo, top) && PackedBut(s0, s', d, hi, b)
    ensures Going(s0, s', tried[j := true], lo, d, hi, b)
  {
    hide Tabled, Moved, Safe, Victim, PackedBut;
    PackedSizes(s0, s, top, hi, b);
    PackedSizes(s0, s', d, hi, b);
    RoomLow(s.bm[j].size, lo, top);
    forall i | 0 <= i < |tried| && i != j && tried[i] && !s.st[i].Placed? ensures Left(s0, s', i, lo, d) {
      assert Left(s0, s, i, lo, top);
      RoomShrinks(s.bm[i].size, lo, top, d);
    }
  }

  lemma RoomLow(size: nat, lo: nat, top: nat)
    requires lo <= top && Room(size, lo, top)
    ensures size <= top && lo <= Align(top - size)
  {
  }

  // what becomes of a module that has no room
  lemma GoingRefused(s0: Snap, s: Snap, s': Snap, tried: seq<bool>, lo: nat, top: nat, hi: nat, b: int, j: nat)
    requires Going(s0, s, tried, lo, top, hi, b) && j < |tried| && !tried[j] && Refused(s, s', j, lo, top)
    ensures Going(s0, s', tried[j := true], lo, top, hi, b)
    ensures forall i | 0 <= i < |tried| :: New(s0, s', i) <==> New(s0, s, i)
  {
    hide Tabled, Victim, Room;
    assert forall i | 0 <= i < |s0.bm| :: New(s0, s', i) <==> New(s0, s, i);
    forall i | 0 <= i < |s0.bm| ensures Kept(s0, s', top, hi, i) && (i != b ==> Safe(s0, s', i)) {
      assert Kept(s0, s, top, hi, i);
    }
    forall i | 0 <= i < |tried| && i != j && tried[i] && !s.st[i].Placed? ensures Left(s0, s', i, lo, top) {
      assert Left(s0, s, i, lo, top);
    }
    assert Kept(s0, s, top, hi, j);
  }

  // ----- the bytes of the victim

  // where f is copied to when it is the first with bytes to go below the last aligned address
  function Over(bm: seq<BootMod>, hi: nat, f: nat): nat
    requires f < |bm|
  {
    if bm[f].size <= Align(hi) then Align(Align(hi) - bm[f].size) else 0
  }

  // x is an address of b's at which f is copied
  ghost predicate Hit(bm: seq<BootMod>, hi: nat, b: nat, f: nat, x: nat)
    requires b < |bm| && f < |bm|
  {
    && bm[b].addr <= x < bm[b].addr + bm[b].size
    && Over(bm, hi, f) <= x < Over(bm, hi, f) + bm[f].size
  }

  // among them is all the word below the last aligned address that f takes
  lemma HitsWord(bm: seq<BootMod>, lo: nat, hi: nat, b: nat, f: nat)
    requires Deep(bm, lo, hi, b) && f < |bm| && 0 < bm[f].size <= Align(hi) && bm[b].addr % 4 == 0
    ensures Align(hi) >= 4 && Hit(bm, hi, b, f, Align(hi) - 4)
  {
    BuriedEnd(bm, lo, hi, b);
  }

  /** Wherever b is in the end, where f was copied over it it has f's bytes. */
  ghost predicate Tainted(s0: Snap, s: Snap, hi: nat, b: nat, f: nat) {
    && b < |s0.bm| == |s.bm| && f < |s0.bm|
    && forall x: nat | Hit(s0.bm, hi, b, f, x) :: TaintAt(s0, s, hi, b, f, x)
  }

  ghost predicate TaintAt(s0: Snap, s: Snap, hi: nat, b: nat, f: nat, x: nat)
    requires b < |s0.bm| == |s.bm| && f < |s0.bm| && Hit(s0.bm, hi, b, f, x)
  {
    var y, z := s.bm[b].addr + (x - s0.bm[b].addr), s0.bm[f].addr + (x - Over(s0.bm, hi, f));
    y < |s.m| && z < |s0.m| && s.m[y] == s0.m[z]
  }

  // f's bytes differ from b's own somewhere there
  ghost predicate Differs(s0: Snap, hi: nat, b: nat, f: nat) {
    && b < |s0.bm| && f < |s0.bm|
    && exists x: nat | Hit(s0.bm, hi, b, f, x) && x < |s0.m| ::
         var z := s0.bm[f].addr + (x - Over(s0.bm, hi, f)); z < |s0.m| && s0.m[z] != s0.m[x]
  }

  /** Where they differ, the packing has failed. */
  lemma TaintBreaks(s0: Snap, s: Snap, top: nat, hi: nat, b: nat, f: nat)
    requires Tainted(s0, s, hi, b, f) && Differs(s0, hi, b, f)
    ensures !Packed(s0, s, top, hi)
  {
    var x: nat :| Hit(s0.bm, hi, b, f, x) && x < |s0.m| &&
      var z := s0.bm[f].addr + (x - Over(s0.bm, hi, f)); z < |s0.m| && s0.m[z] != s0.m[x];
    assert TaintAt(s0, s, hi, b, f, x);
    if Packed(s0, s, top, hi) {
      SameByte(s0, s, b, x);
    }
  }

  lemma SameByte(s0: Snap, s: Snap, b: nat, x: nat)
    requires b < |s0.bm| && b < |s.bm| && Safe(s0, s, b) && s0.bm[b].addr <= x < s0.bm[b].addr + s0.bm[b].size
    requires s.bm[b].size == s0.bm[b].size
    ensures s.m[s.bm[b].addr + (x - s0.bm[b].addr)] == s0.m[x]
  {
    assert Bytes(s.bm[b], s.m)[x - s0.bm[b].addr] == Bytes(s0.bm[b], s0.m)[x - s0.bm[b].addr];
  }

  // the victim has its bytes: it is out of the way, or nothing with bytes has gone
  ghost predicate Intact(s0: Snap, s: Snap, lo: nat, top: nat, hi: nat, b: nat)
    requires |s0.st| == |s0.bm| == |s.bm| == |s.st| && b < |s0.bm|
  {
    && Safe(s0, s, b)
    && (Deep(s0.bm, lo, hi, b) && !New(s0, s, b) ==>
          Align(hi) <= top && forall i | 0 <= i < |s0.bm| && New(s0, s, i) :: s0.bm[i].size == 0)
  }

  // or the first one copied over it has left its bytes there, and all others stay below
  ghost predicate Spoilt(s0: Snap, s: Snap, lo: nat, top: nat, hi: nat, copy: bool, b: nat, f: nat) {
    && Trampler(s0.bm, s0.st, lo, hi, copy, b, f) && f < |s0.bm| && b < |s.bm| == |s.st|
    && Tainted(s0, s, hi, b, f) && top <= Over(s0.bm, hi, f)
  }

  // module j goes over the victim
  ghost predicate Covers(s0: Snap, s: Snap, lo: nat, hi: nat, b: nat, j: nat)
    requires |s0.st| == |s0.bm| == |s.st| && b < |s0.bm| && j < |s0.bm|
  {
    j != b && s0.bm[j].size > 0 && Deep(s0.bm, lo, hi, b) && !New(s0, s, b)
  }

  // the first one with bytes to go below the last aligned address leaves them in the victim
  lemma TaintStart(s0: Snap, s: Snap, s': Snap, top: nat, d: nat, hi: nat, b: nat, j: nat)
    requires Goes(s0, s, s', top, d, hi, j) && b < |s0.bm| && j != b && s.bm[b] == s0.bm[b] && Fits(s0.bm[b], s0.m)
    requires top == Align(hi) && Safe(s0, s, j)
    ensures Tainted(s0, s', hi, b, j)
  {
    hide Moved;
    forall x: nat | Hit(s0.bm, hi, b, j, x) ensures TaintAt(s0, s', hi, b, j, x) {
      MovedAt(s.m, s'.m, s.bm[j].addr, d, s.bm[j].size, x);
      SameByte(s0, s, j, s0.bm[j].addr + (x - d));
    }
  }

  // whatever goes afterwards, the victim among it, leaves them there
  lemma TaintOn(s0: Snap, s: Snap, s': Snap, top: nat, d: nat, hi: nat, b: nat, f: nat, j: nat, x: nat)
    requires Goes(s0, s, s', top, d, hi, j) && b < |s0.bm| && f < |s0.bm| && top <= Over(s0.bm, hi, f)
    requires Kept(s0, s, top, hi, b) && Hit(s0.bm, hi, b, f, x) && TaintAt(s0, s, hi, b, f, x)
    ensures |s'.bm| == |s0.bm| && TaintAt(s0, s', hi, b, f, x)
  {
    hide Over;
    if j == b {
      MovedAt(s.m, s'.m, s.bm[j].addr, d, s.bm[j].size, d + (x - s0.bm[b].addr));
    }
  }

  lemma TaintStays(s0: Snap, s: Snap, s': Snap, top: nat, d: nat, hi: nat, b: nat, f: nat, j: nat)
    requires Goes(s0, s, s', top, d, hi, j) && Tainted(s0, s, hi, b, f) && top <= Over(s0.bm, hi, f)
    requires Kept(s0, s, top, hi, b)
    ensures Tainted(s0, s', hi, b, f)
  {
    hide TaintAt, Hit, Moved, Over;
    forall x: nat | Hit(s0.bm, hi, b, f, x) ensures TaintAt(s0, s', hi, b, f, x) {
      TaintOn(s0, s, s', top, d, hi, b, f, j, x);
    }
  }

  // one placement and an intact victim, in either pass
  lemma IntactStep(s0: Snap, s: Snap, s': Snap, lo: nat, top: nat, d: nat, hi: nat, copy: bool, b: nat, j: nat)
    requires Goes(s0, s, s', top, d, hi, j) && Loaded(s0, lo, hi) && PackedBut(s0, s, top, hi, b)
    requires Buried(s0.bm, lo, hi, b) && Intact(s0, s, lo, top, hi, b) && (top <= Align(hi) || s0.bm[j].size == 0)
    requires Covers(s0, s, lo, hi, b, j) ==> Trampler(s0.bm, s0.st, lo, hi, copy, b, j)
    ensures |s'.bm| == |s'.st| == |s0.bm|
    ensures if Covers(s0, s, lo, hi, b, j) then Spoilt(s0, s', lo, d, hi, copy, b, j) else Intact(s0, s', lo, d, hi, b)
  {
    hide Tabled, Buried, Safe, Trampler, Tainted, Moved;
    BuriedLow(s0.bm, s0.st, lo, hi, b);
    BuriedEnd(s0.bm, lo, hi, b);
    PackedSizes(s0, s, top, hi, b);
    assert Kept(s0, s, top, hi, b);
    if Covers(s0, s, lo, hi, b, j) {
      FitsAt(s0, lo, hi, b);
      TaintStart(s0, s, s', top, d, hi, b, j);
    } else {
      GoesSafe(s0, s, s', top, d, hi, j, b);
    }
  }

  // and one that is not
  lemma SpoiltStep(s0: Snap, s: Snap, s': Snap, lo: nat, top: nat, d: nat, hi: nat, copy: bool, b: nat, j: nat, f: nat)
    requires Goes(s0, s, s', top, d, hi, j) && PackedBut(s0, s, top, hi, b) && b < |s0.bm|
    requires Spoilt(s0, s, lo, top, hi, copy, b, f)
    ensures Spoilt(s0, s', lo, d, hi, copy, b, f)
  {
    hide Trampler, Tainted, Moved, Safe;
    PackedSizes(s0, s, top, hi, b);
    TaintStays(s0, s, s', top, d, hi, b, f, j);
  }

  // ----- the first pass

  // what the first pass has made of the victim
  ghost predicate Fate1(s0: Snap, s: Snap, lo: nat, top: nat, hi: nat, copy: bool, b: int)
    requires |s0.st| == |s0.bm| == |s.bm| == |s.st| && -1 <= b < |s0.bm|
  {
    b < 0 || Intact(s0, s, lo, top, hi, b) || exists f :: Spoilt(s0, s, lo, top, hi, copy, b, f)
  }

  ghost predicate First1(s0: Snap, s: Snap, tried: seq<bool>, lo: nat, top: nat, hi: nat, b: int, copy: bool) {
    && Going(s0, s, tried, lo, top, hi, b) && Queue(s0.bm, s0.st, tried, lo, top, hi, b)
    && (forall i | 0 <= i < |tried| && tried[i] :: s.st[i].Placed?)
    && Fate1(s0, s, lo, top, hi, copy, b)
  }

  lemma {:induction false} FirstBegins(s: Snap, tried: seq<bool>, lo: nat, hi: nat, b: int, copy: bool)
    requires Loaded(s, lo, hi) && Victim(s.bm, lo, hi, b) && |tried| == |s.bm|
    requires forall i | 0 <= i < |tried| :: tried[i] <==> s.st[i].Placed?
    ensures First1(s, s, tried, lo, TopOf(s.bm, lo, hi), hi, b, copy)
  {
    hide Queue, Buried, TopOf, Tabled;
    StartQueue(s.bm, s.st, tried, lo, hi, b);
    RangedTop(s.bm, s.st, tried, lo, TopOf(s.bm, lo, hi), hi, b);
    forall i | 0 <= i < |s.bm| ensures Safe(s, s, i) {
      FitsAt(s, lo, hi, i);
    }
    if b >= 0 {
      BuriedLow(s.bm, s.st, lo, hi, b);
    }
  }

  lemma {:induction false} RangedTop(bm: seq<BootMod>, st: seq<Status>, tried: seq<bool>, lo: nat, top: nat, hi: nat,
                                     b: int)
    requires Queue(bm, st, tried, lo, top, hi, b)
    ensures Ranged(bm, st, tried, lo, top, hi, b) && |tried| == |bm| == |st| && Tabled(bm, st, lo, hi)
    ensures lo <= top <= TopOf(bm, lo, hi) <= hi && (top == hi || top % 4 == 0) && Victim(bm, lo, hi, b)
  {
    TopFacts(bm, lo, hi);
  }

  lemma FirstFacts(s0: Snap, s: Snap, tried: seq<bool>, lo: nat, top: nat, hi: nat, b: int, copy: bool)
    requires First1(s0, s, tried, lo, top, hi, b, copy)
    ensures Going(s0, s, tried, lo, top, hi, b) && Queue(s0.bm, s0.st, tried, lo, top, hi, b)
    ensures Sizes(s0, s) && |tried| == |s0.bm| && -1 <= b < |s0.bm| && Loaded(s0, lo, hi) && lo <= top <= hi
    ensures PackedBut(s0, s, top, hi, b) && Fate1(s0, s, lo, top, hi, copy, b)
    ensures forall i: nat | i < |tried| :: Gone(s0.st, tried, i) <==> New(s0, s, i)
    ensures forall i | 0 <= i < |tried| && !tried[i] :: !New(s0, s, i)
    ensures forall i | 0 <= i < |tried| && tried[i] :: s.st[i].Placed?
    ensures b >= 0 ==> Buried(s0.bm, lo, hi, b) && !tried[b]
  {
    hide Tabled, PackedBut, TopIs, Buried, Fate1, Stays;
    PackedSizes(s0, s, top, hi, b);
  }

  // every module with bytes but the victim that has not gone is out of the range or waits whole below top
  lemma {:induction false} WaitsOrOut(bm: seq<BootMod>, st: seq<Status>, tried: seq<bool>, lo: nat, top: nat,
                                      hi: nat, b: int, i: nat)
    requires Queue(bm, st, tried, lo, top, hi, b)
    requires i < |bm| && i != b && !Gone(st, tried, i) && bm[i].size > 0
    ensures Outside(bm[i], lo, TopOf(bm, lo, hi)) || (!tried[i] && Inside(bm[i], lo, top))
  {
    hide TopIs, Victim;
    TopFacts(bm, lo, hi);
  }

  // The place the chosen module takes is clear of the modules with bytes still waiting below it.
  lemma HighestFits(bm: seq<BootMod>, st: seq<Status>, tried: seq<bool>, lo: nat, top: nat, hi: nat, b: int, j: nat,
                    i: nat)
    requires Queue(bm, st, tried, lo, top, hi, b) && Chosen(bm, tried, j, lo, top) && bm[j].size > 0
    requires i < |bm| && i != j && i != b && !Gone(st, tried, i) && bm[i].size > 0
    ensures bm[j].size <= top && Outside(bm[i], Align(top - bm[j].size), top)
  {
    hide Tabled, Queue, Victim, TopOf, Gone, Ranged;
    RangedTop(bm, st, tried, lo, top, hi, b);
    ChosenFits(bm, st, tried, lo, top, hi, b, j);
    WaitsOrOut(bm, st, tried, lo, top, hi, b, i);
    ApartAt(bm, st, lo, hi, i, j);
  }

  lemma ApartAt(bm: seq<BootMod>, st: seq<Status>, lo: nat, hi: nat, i: nat, j: nat)
    requires Tabled(bm, st, lo, hi) && i < |bm| && j < |bm| && i != j
    ensures Apart(bm[i], bm[j])
  {
  }

  /** Moving the highest waiting module keeps placed and waiting modules apart and whole, but for the victim. */
  lemma PlaceHighest(s0: Snap, s: Snap, s': Snap, tried: seq<bool>, lo: nat, top: nat, d: nat, hi: nat, b: int,
                     copy: bool, j: nat)
    requires First1(s0, s, tried, lo, top, hi, b, copy) && Chosen(s0.bm, tried, j, lo, top)
    requires Goes(s0, s, s', top, d, hi, j)
    ensures PackedBut(s0, s', d, hi, b)
  {
    hide First1, PackedBut, Tabled, Chosen, Moved, Queue, Gone;
    FirstFacts(s0, s, tried, lo, top, hi, b, copy);
    if s.bm[j].size > 0 {
      forall i | 0 <= i < |s0.bm| && i != j && i != b && !New(s0, s, i)
        ensures s0.bm[i].size == 0 || Outside(s0.bm[i], d, top)
      {
        assert !Gone(s0.st, tried, i);
        if s0.bm[i].size > 0 {
          HighestFits(s0.bm, s0.st, tried, lo, top, hi, b, j, i);
        }
      }
    }
    GoesPacked(s0, s, s', top, d, hi, b, j);
  }

  // ... and the victim, which is not chosen
  lemma FirstFate(s0: Snap, s: Snap, s': Snap, tried: seq<bool>, lo: nat, top: nat, d: nat, hi: nat, b: int,
                  copy: bool, j: nat)
    requires First1(s0, s, tried, lo, top, hi, b, copy) && Chosen(s0.bm, tried, j, lo, top)
    requires Goes(s0, s, s', top, d, hi, j)
    ensures |s'.bm| == |s'.st| == |s0.bm| && Fate1(s0, s', lo, d, hi, copy, b)
  {
    hide First1, PackedBut, Tabled, Chosen, Moved, Queue, Buried, Safe, Trampler, Gone, Spoilt;
    FirstFacts(s0, s, tried, lo, top, hi, b, copy);
    RangedTop(s0.bm, s0.st, tried, lo, top, hi, b);
    if b >= 0 {
      VictimLeft(s0.bm, s0.st, tried, lo, top, hi, b, j);
      if Intact(s0, s, lo, top, hi, b) {
        if Covers(s0, s, lo, hi, b, j) {
          assert forall i: nat | Gone(s0.st, tried, i) :: i < |tried| ==> New(s0, s, i);
          GoneIn(s0.st, tried);
          FirstOver(s0.bm, s0.st, tried, lo, top, hi, b, j, copy);
        }
        IntactStep(s0, s, s', lo, top, d, hi, copy, b, j);
      } else {
        var f :| Spoilt(s0, s, lo, top, hi, copy, b, f);
        SpoiltStep(s0, s, s', lo, top, d, hi, copy, b, j, f);
      }
    }
  }

  lemma GoneIn(st: seq<Status>, tried: seq<bool>)
    requires |st| == |tried|
    ensures forall i: nat | Gone(st, tried, i) :: i < |tried|
  {
  }

  lemma FirstStep(s0: Snap, s: Snap, s': Snap, tried: seq<bool>, lo: nat, top: nat, d: nat, hi: nat, b: int,
                  copy: bool, j: nat)
    requires First1(s0, s, tried, lo, top, hi, b, copy) && Chosen(s0.bm, tried, j, lo, top)
    requires Goes(s0, s, s', top, d, hi, j)
    ensures First1(s0, s', tried[j := true], lo, d, hi, b, copy)
  {
    hide PackedBut, Tabled, Moved, Queue, Fate1, Going, Room;
    FirstFacts(s0, s, tried, lo, top, hi, b, copy);
    RangedTop(s0.bm, s0.st, tried, lo, top, hi, b);
    ChosenFits(s0.bm, s0.st, tried, lo, top, hi, b, j);
    PlaceHighest(s0, s, s', tried, lo, top, d, hi, b, copy, j);
    GoingOn(s0, s, s', tried, lo, top, d, hi, b, j);
    QueueStep(s0.bm, s0.st, tried, lo, top, hi, b, j);
    FirstFate(s0, s, s', tried, lo, top, d, hi, b, copy, j);
  }

  // ----- the second pass

  // no module with bytes but the victim that is not placed has one in [lo, c)
  ghost predicate ClearBut(s0: Snap, s: Snap, lo: nat, c: nat, b: int)
    requires |s0.st| == |s0.bm| == |s.st|
  {
    forall i | 0 <= i < |s0.bm| && i != b && !New(s0, s, i) && s0.bm[i].size > 0 :: Outside(s0.bm[i], lo, c)
  }

  // an intact victim that has not moved is alone, and has moved only with room for it
  ghost predicate Spared(s0: Snap, s: Snap, lo: nat, top: nat, hi: nat, b: nat)
    requires |s0.st| == |s0.bm| == |s.bm| == |s.st| && b < |s0.bm|
  {
    && Intact(s0, s, lo, top, hi, b)
    && (Deep(s0.bm, lo, hi, b) ==> Alone(s0.bm, s0.st, lo, b))
    && (Deep(s0.bm, lo, hi, b) && New(s0, s, b) ==> lo <= Align(hi) && Room(s0.bm[b].size, lo, Align(hi)))
  }

  // what the whole call has made of the victim
  ghost predicate Fate2(s0: Snap, s: Snap, lo: nat, top: nat, hi: nat, copy: bool, b: int)
    requires |s0.st| == |s0.bm| == |s.bm| == |s.st| && -1 <= b < |s0.bm|
  {
    b < 0 || Spared(s0, s, lo, top, hi, b) || exists f :: Spoilt(s0, s, lo, top, hi, copy, b, f)
  }

  ghost predicate Second(s0: Snap, s: Snap, tried: seq<bool>, lo: nat, top: nat, hi: nat, b: int, copy: bool) {
    && Going(s0, s, tried, lo, top, hi, b) && top <= TopOf(s0.bm, lo, hi)
    && ClearBut(s0, s, lo, TopOf(s0.bm, lo, hi), b) && (b >= 0 ==> top <= Align(hi))
    && Fate2(s0, s, lo, top, hi, copy, b)
  }

  // the first pass ends: nothing waits any more
  lemma FirstDone(s0: Snap, s: Snap, tried: seq<bool>, lo: nat, top: nat, hi: nat, b: int, copy: bool)
    requires First1(s0, s, tried, lo, top, hi, b, copy)
    requires forall k | 0 <= k < |tried| && !tried[k] :: !Inside(s0.bm[k], lo, top)
    ensures Second(s0, s, tried, lo, top, hi, b, copy)
  {
    hide First1, Tabled, Queue, Going, PackedBut, Safe, Alone, Buried, Tainted, Gone;
    FirstFacts(s0, s, tried, lo, top, hi, b, copy);
    RangedTop(s0.bm, s0.st, tried, lo, top, hi, b);
    forall i | 0 <= i < |s0.bm| && i != b && !New(s0, s, i) && s0.bm[i].size > 0
      ensures Outside(s0.bm[i], lo, TopOf(s0.bm, lo, hi))
    {
      assert !Gone(s0.st, tried, i);
      WaitsOrOut(s0.bm, s0.st, tried, lo, top, hi, b, i);
    }
    if b >= 0 {
      VictimEnd(s0, s, tried, lo, top, hi, b, copy);
    }
  }

  lemma VictimEnd(s0: Snap, s: Snap, tried: seq<bool>, lo: nat, top: nat, hi: nat, b: nat, copy: bool)
    requires First1(s0, s, tried, lo, top, hi, b, copy)
    requires forall k | 0 <= k < |tried| && !tried[k] :: !Inside(s0.bm[k], lo, top)
    ensures top <= Align(hi) && b < |s0.bm| && Sizes(s0, s) && !New(s0, s, b)
    ensures Intact(s0, s, lo, top, hi, b) && Deep(s0.bm, lo, hi, b) ==> Alone(s0.bm, s0.st, lo, b)
  {
    hide First1, Tabled, Queue, Going, PackedBut, Safe, Alone, Gone, Ranged, Buried;
    FirstFacts(s0, s, tried, lo, top, hi, b, copy);
    RangedTop(s0.bm, s0.st, tried, lo, top, hi, b);
    if top > Align(hi) {
      NoneGone(s0.bm, s0.st, tried, lo, top, hi, b);
      BuriedEnd(s0.bm, lo, hi, b);
    }
    if Intact(s0, s, lo, top, hi, b) && Deep(s0.bm, lo, hi, b) {
      GoneIn(s0.st, tried);
      AloneThen(s0.bm, s0.st, tried, lo, top, hi, b);
    }
  }

  lemma SecondFacts(s0: Snap, s: Snap, tried: seq<bool>, lo: nat, top: nat, hi: nat, b: int, copy: bool)
    requires Second(s0, s, tried, lo, top, hi, b, copy)
    ensures Going(s0, s, tried, lo, top, hi, b) && PackedBut(s0, s, top, hi, b) && Loaded(s0, lo, hi)
    ensures Sizes(s0, s) && |tried| == |s0.bm| && -1 <= b < |s0.bm| && lo <= top <= hi && (top == hi || top % 4 == 0)
    ensures Fate2(s0, s, lo, top, hi, copy, b) && Victim(s0.bm, lo, hi, b) && (b >= 0 ==> Buried(s0.bm, lo, hi, b))
    ensures forall i | 0 <= i < |tried| && !tried[i] :: s.bm[i] == s0.bm[i] && !s.st[i].Placed? && !s0.st[i].Placed?
    ensures forall i | 0 <= i < |tried| && tried[i] && !s.st[i].Placed? :: Left(s0, s, i, lo, top)
  {
    hide Tabled, Buried, Fate2, Safe, PackedBut;
    PackedSizes(s0, s, top, hi, b);
    forall i | 0 <= i < |tried| && !tried[i] ensures s.bm[i] == s0.bm[i] {
      assert Kept(s0, s, top, hi, i);
    }
  }

  // once the range is clear, a copy into it destroys nothing but possibly bytes of the victim
  lemma {:induction false} PlaceInClear(s0: Snap, s: Snap, s': Snap, lo: nat, top: nat, d: nat, hi: nat, b: int, j: nat)
    requires PackedBut(s0, s, top, hi, b) && Goes(s0, s, s', top, d, hi, j) && lo <= d && top <= TopOf(s0.bm, lo, hi)
    requires ClearBut(s0, s, lo, TopOf(s0.bm, lo, hi), b)
    ensures PackedBut(s0, s', d, hi, b) && |s'.st| == |s0.st| && ClearBut(s0, s', lo, TopOf(s0.bm, lo, hi), b)
  {
    hide Safe, TopOf, PackedBut;
    GoesPacked(s0, s, s', top, d, hi, b, j);
  }

  // the next of the second pass: nothing with bytes that has not been tried goes before it
  ghost predicate InTurn(s0: Snap, tried: seq<bool>, hi: nat, b: int, j: nat)
    requires |tried| == |s0.bm| && j < |tried|
  {
    && (forall k | 0 <= k < |tried| && k != j && !tried[k] && s0.bm[k].size > 0 && s0.bm[j].size > 0 ::
          Later(s0.bm, hi, j, k))
    && (b < 0 || (b < |tried| && tried[b]) || s0.bm[j].size == 0 || j == b)
  }

  // when it goes over an intact victim, it is the first to
  lemma OverThen(s0: Snap, s: Snap, tried: seq<bool>, lo: nat, top: nat, hi: nat, b: nat, j: nat)
    requires Second(s0, s, tried, lo, top, hi, b, true) && b < |s0.bm| && Sizes(s0, s) && Spared(s0, s, lo, top, hi, b)
    requires j < |tried| && |tried| == |s0.bm| && !tried[j] && Covers(s0, s, lo, hi, b, j)
    requires lo <= top && Room(s0.bm[j].size, lo, top) && InTurn(s0, tried, hi, b, j)
    ensures Trampler(s0.bm, s0.st, lo, hi, true, b, j)
  {
    hide Tabled, Going, Fate2, Buried, ClearBut, Room, Alone, Later, Safe, PackedBut, Trampler;
    SecondFacts(s0, s, tried, lo, top, hi, b, true);
    BuriedLow(s0.bm, s0.st, lo, hi, b);
    assert Left(s0, s, b, lo, top);
    forall k | 0 <= k < |s0.bm| && s0.bm[k].size > 0 && !s0.st[k].Placed? && tried[k]
      ensures !Room(s0.bm[k].size, lo, Align(hi))
    {
      assert !New(s0, s, k) && Left(s0, s, k, lo, top);
    }
    SecondOver(s0.bm, s0.st, lo, hi, b, j);
  }

  lemma SecondFate(s0: Snap, s: Snap, s': Snap, tried: seq<bool>, lo: nat, top: nat, d: nat, hi: nat, b: int, j: nat)
    requires Second(s0, s, tried, lo, top, hi, b, true) && j < |tried| == |s0.bm| && !tried[j]
    requires Goes(s0, s, s', top, d, hi, j) && lo <= top && Room(s.bm[j].size, lo, top) && InTurn(s0, tried, hi, b, j)
    ensures |s'.bm| == |s'.st| == |s0.bm| && Fate2(s0, s', lo, d, hi, true, b)
  {
    hide Tabled, Going, PackedBut, Moved, Trampler, Alone, Buried, Later, Safe, ClearBut, InTurn, Room, Spoilt;
    SecondFacts(s0, s, tried, lo, top, hi, b, true);
    if b >= 0 {
      if Spared(s0, s, lo, top, hi, b) {
        if Covers(s0, s, lo, hi, b, j) {
          OverThen(s0, s, tried, lo, top, hi, b, j);
        }
        IntactStep(s0, s, s', lo, top, d, hi, true, b, j);
      } else {
        var f :| Spoilt(s0, s, lo, top, hi, true, b, f);
        SpoiltStep(s0, s, s', lo, top, d, hi, true, b, j, f);
      }
    }
  }

  // one of the others is placed
  lemma SecondPlaced(s0: Snap, s: Snap, s': Snap, tried: seq<bool>, lo: nat, top: nat, d: nat, hi: nat, b: int, j: nat)
    requires Second(s0, s, tried, lo, top, hi, b, true) && j < |tried| == |s0.bm| && !tried[j]
    requires Goes(s0, s, s', top, d, hi, j) && lo <= top && Room(s.bm[j].size, lo, top) && InTurn(s0, tried, hi, b, j)
    ensures Second(s0, s', tried[j := true], lo, d, hi, b, true)
  {
    hide Tabled, Going, PackedBut, Moved, Fate2, InTurn, Room, ClearBut;
    SecondFacts(s0, s, tried, lo, top, hi, b, true);
    RoomLow(s.bm[j].size, lo, top);
    PlaceInClear(s0, s, s', lo, top, d, hi, b, j);
    GoingOn(s0, s, s', tried, lo, top, d, hi, b, j);
    SecondFate(s0, s, s', tried, lo, top, d, hi, b, j);
  }

  // one of the others has no room
  lemma SecondRefused(s0: Snap, s: Snap, s': Snap, tried: seq<bool>, lo: nat, top: nat, hi: nat, b: int, copy: bool,
                      j: nat)
    requires Second(s0, s, tried, lo, top, hi, b, copy) && j < |tried| && !tried[j] && Refused(s, s', j, lo, top)
    ensures Second(s0, s', tried[j := true], lo, top, hi, b, copy)
  {
    hide Going, Room, Fate2, TopOf;
    SecondFacts(s0, s, tried, lo, top, hi, b, copy);
    GoingRefused(s0, s, s', tried, lo, top, hi, b, j);
    FateRefused(s0, s, s', lo, top, hi, b, copy);
  }

  lemma FateRefused(s0: Snap, s: Snap, s': Snap, lo: nat, top: nat, hi: nat, b: int, copy: bool)
    requires Sizes(s0, s) && -1 <= b < |s0.bm| && Fate2(s0, s, lo, top, hi, copy, b)
    requires s'.bm == s.bm && s'.m == s.m && |s'.st| == |s.st|
    requires forall i | 0 <= i < |s0.bm| :: New(s0, s', i) <==> New(s0, s, i)
    ensures Fate2(s0, s', lo, top, hi, copy, b)
  {
    hide Trampler, Alone, Room, Deep, New;
    if b < 0 || Spared(s0, s, lo, top, hi, b) {
    } else {
      var f: nat :| Spoilt(s0, s, lo, top, hi, copy, b, f);
      forall x: nat | Hit(s0.bm, hi, b, f, x) ensures TaintAt(s0, s', hi, b, f, x) {
        assert TaintAt(s0, s, hi, b, f, x);
      }
      assert Spoilt(s0, s', lo, top, hi, copy, b, f);
    }
  }

  /** In the end: all is packed, unless one was copied over the victim; that one, and no other module, has
      left its bytes in the victim's place. */
  lemma Verdict(s0: Snap, s: Snap, tried: seq<bool>, lo: nat, top: nat, hi: nat, b: int, copy: bool)
    requires Second(s0, s, tried, lo, top, hi, b, copy)
    requires copy ==> forall i | 0 <= i < |tried| :: tried[i]
    ensures !Trampled(s0.bm, s0.st, lo, hi, copy) ==> Packed(s0, s, top, hi)
    ensures Trampled(s0.bm, s0.st, lo, hi, copy) ==> b >= 0 && exists f :: Trampler(s0.bm, s0.st, lo, hi, copy, b, f)
    ensures forall b': nat, f: nat | Trampler(s0.bm, s0.st, lo, hi, copy, b', f) ::
      b' == b && PackedBut(s0, s, top, hi, b) && Tainted(s0, s, hi, b, f)
  {
    hide Tabled, Going, PackedBut, Alone, Buried, Safe, ClearBut, Tainted, Victim;
    SecondFacts(s0, s, tried, lo, top, hi, b, copy);
    if b < 0 || Spared(s0, s, lo, top, hi, b) {
      NoTrampling(s0, s, tried, lo, top, hi, b, copy);
      SparedPacked(s0, s, lo, top, hi, b);
    } else {
      var f :| Spoilt(s0, s, lo, top, hi, copy, b, f);
      assert Trampler(s0.bm, s0.st, lo, hi, copy, b, f);
      forall b', f' | Trampler(s0.bm, s0.st, lo, hi, copy, b', f') ensures b' == b && f' == f {
        OnlyVictim(s0.bm, s0.st, lo, hi, copy, b, b', f');
        OneTrampler(s0.bm, s0.st, lo, hi, copy, b, f, f');
      }
    }
  }

  lemma OnlyVictim(bm: seq<BootMod>, st: seq<Status>, lo: nat, hi: nat, copy: bool, b: int, b': nat, f: nat)
    requires Victim(bm, lo, hi, b) && Tramples(bm, st, lo, hi, copy, b', f)
    ensures b' == b
  {
  }

  lemma SparedPacked(s0: Snap, s: Snap, lo: nat, top: nat, hi: nat, b: int)
    requires PackedBut(s0, s, top, hi, b) && -1 <= b < |s0.bm|
    requires b >= 0 ==> Spared(s0, s, lo, top, hi, b)
    ensures Packed(s0, s, top, hi)
  {
    if b >= 0 {
      PackedIs(s0, s, top, hi, b);
    }
  }

  lemma NoTrampling(s0: Snap, s: Snap, tried: seq<bool>, lo: nat, top: nat, hi: nat, b: int, copy: bool)
    requires Second(s0, s, tried, lo, top, hi, b, copy) && (copy ==> forall i | 0 <= i < |tried| :: tried[i])
    requires Sizes(s0, s) && -1 <= b < |s0.bm| && (b >= 0 ==> Spared(s0, s, lo, top, hi, b))
    ensures !Trampled(s0.bm, s0.st, lo, hi, copy)
    ensures forall b', f :: !Trampler(s0.bm, s0.st, lo, hi, copy, b', f)
  {
    hide Tabled, Going, PackedBut, Alone, Buried, Safe, ClearBut, Fate2, Sooner, Room;
    SecondFacts(s0, s, tried, lo, top, hi, b, copy);
    if b < 0 || !Deep(s0.bm, lo, hi, b) || !copy || New(s0, s, b) {
      Untrampled(s0.bm, s0.st, lo, hi, copy, b);
    } else {
      BuriedLow(s0.bm, s0.st, lo, hi, b);
      forall b', f | Tramples(s0.bm, s0.st, lo, hi, copy, b', f) ensures false {
        OnlyVictim(s0.bm, s0.st, lo, hi, copy, b, b', f);
        NotOver(s0, s, tried, lo, top, hi, b, f);
      }
    }
  }

  // when no byte has moved, nothing with bytes has had room
  lemma NotOver(s0: Snap, s: Snap, tried: seq<bool>, lo: nat, top: nat, hi: nat, b: nat, f: nat)
    requires Second(s0, s, tried, lo, top, hi, b, true) && forall i | 0 <= i < |tried| :: tried[i]
    requires Sizes(s0, s) && b < |s0.bm| && Spared(s0, s, lo, top, hi, b) && !New(s0, s, b)
    ensures !Tramples(s0.bm, s0.st, lo, hi, true, b, f)
  {
    hide Tabled, Going, PackedBut, Buried, Safe, ClearBut, Fate2, Room;
    SecondFacts(s0, s, tried, lo, top, hi, b, true);
    if f < |s0.bm| && !s0.st[f].Placed? && !s.st[f].Placed? {
      assert Left(s0, s, f, lo, top);
    }
  }

  // ----- examples

  /** With an unaligned end, an empty module at another's start goes first and takes the other's last
      bytes out of the range: the other is not moved with the rest, and a third is copied over it.
      With nothing else below it, the other is copied out unharmed when copy is set. */
  lemma UnalignedEnd(copy: bool)
    ensures var bm, st := [BootMod(4, 0), BootMod(4, 6), BootMod(0, 4)], [Loose, Loose, Loose];
      Tabled(bm, st, 0, 10) && Buried(bm, 0, 10, 1) && Trampler(bm, st, 0, 10, copy, 1, 2)
    ensures var bm, st := [BootMod(4, 0), BootMod(4, 6)], [Loose, Loose];
      Tabled(bm, st, 0, 10) && Buried(bm, 0, 10, 1) && !Trampled(bm, st, 0, 10, copy)
  {
    var bm, st := [BootMod(4, 0), BootMod(4, 6), BootMod(0, 4)], [Loose, Loose, Loose];
    assert bm[0] == BootMod(bm[1].addr, 0);
    assert Tramples(bm, st, 0, 10, copy, 1, 2);
    assert bm[..2] == [BootMod(4, 0), BootMod(4, 6)];
    assert bm[..2][0] == BootMod(bm[..2][1].addr, 0);
  }

  /** An empty module listed after one of its start that is at the top already is one that stays. */
  lemma EmptyStays()
    ensures var bm := [BootMod(8, 8), BootMod(8, 0)];
      Tabled(bm, [Loose, Loose], 0, 16) && Stays(bm, 0, 16, 1) && !Stays(bm, 0, 16, 0) && !Buried(bm, 0, 16, 0)
  {
    var bm := [BootMod(8, 8), BootMod(8, 0)];
    assert bm[..1] == [BootMod(8, 8)] && bm[..1][..0] == [];
    assert TopOf(bm, 0, 16) == 16;
    assert Lead(bm, 0, 16, 0);
    WeightSame(bm, Ahead(bm, 0, 16, 0, 1), {}, 2);
    WeightNone(bm, 2);
    assert Filled(bm, 0, 16, 0, 1);
  }

  class Boot {
    const mem: array<Byte>
    var bm: seq<BootMod>
    var st: seq<Status>

    ghost predicate Valid()
      reads this, mem
    {
      mem.Length == ADDRESSES && |st| == |bm|
    }

    ghost function Now(): Snap
      reads this, mem
    {
      Snap(bm, st, mem[..])
    }

    // the byte copy, from the end down when moving up and from the start when moving down
    method Move(src: nat, dst: nat, n: nat)
      requires src + n <= mem.Length && dst + n <= mem.Length
      modifies mem
      ensures Moved(old(mem[..]), mem[..], src, dst, n)
    {
      if dst > src {
        var i := n;
        while i > 0
          invariant 0 <= i <= n
          invariant forall x | dst + i <= x < dst + n :: mem[x] == old(mem[x - dst + src])
          invariant forall x | 0 <= x < mem.Length && !(dst + i <= x < dst + n) :: mem[x] == old(mem[x])
        {
          i := i - 1;
          mem[dst + i] := mem[src + i];
        }
      } else {
        var i := 0;
        while i < n
          invariant 0 <= i <= n
          invariant forall x | dst <= x < dst + i :: mem[x] == old(mem[x - dst + src])
          invariant forall x | 0 <= x < mem.Length && !(dst <= x < dst + i) :: mem[x] == old(mem[x])
        {
          mem[dst + i] := mem[src + i];
          i := i + 1;
        }
      }
      ghost var a, b := mem[dst..dst + n], old(mem[..])[src..src + n];
      assert a == b by {
        forall k | 0 <= k < n ensures a[k] == b[k] {
          assert mem[dst + k] == old(mem[dst + k - dst + src]);
        }
      }
    }

    // the highest untried module starting in [lo, hi), and ending there too if whole is set; or -1;
    // of several at one start, the first listed
    method Next(tried: array<bool>, lo: nat, hi: nat, whole: bool) returns (j: int)
      requires Valid() && tried.Length == |bm|
      ensures -1 <= j < |bm|
      ensures j >= 0 ==> !tried[j] && Eligible(bm[j], lo, hi, whole)
      ensures forall i | 0 <= i < |bm| && !tried[i] && Eligible(bm[i], lo, hi, whole) ::
        j >= 0 && bm[i].addr <= bm[j].addr && (i < j ==> bm[i].addr < bm[j].addr)
    {
      j := -1;
      var i := 0;
      while i < |bm|
        invariant 0 <= i <= |bm| && -1 <= j < i
        invariant j >= 0 ==> !tried[j] && Eligible(bm[j], lo, hi, whole)
        invariant forall k | 0 <= k < i && !tried[k] && Eligible(bm[k], lo, hi, whole) ::
          j >= 0 && bm[k].addr <= bm[j].addr && (k < j ==> bm[k].addr < bm[j].addr)
      {
        if !tried[i] && Eligible(bm[i], lo, hi, whole) && (j < 0 || bm[i].addr > bm[j].addr) {
          j := i;
        }
        i := i + 1;
      }
    }

    // copy module j to just below top, if there is room; the new top
    method Place(tried: array<bool>, j: nat, lo: nat, top: nat) returns (t: nat)
      requires Valid() && tried.Length == |bm| && j < |bm| && Fits(bm[j], mem[..]) && lo <= top <= mem.Length
      modifies this`bm, this`st, mem, tried
      ensures Valid() && tried[..] == old(tried[..])[j := true]
      ensures if Room(old(bm)[j].size, lo, top)
              then t == Align(top - old(bm)[j].size) && PlacedAt(old(Now()), Now(), j, t)
              else t == top && Refused(old(Now()), Now(), j, lo, top)
    {
      tried[j] := true;
      var s := bm[j].size;
      if s > top - lo || Align(top - s) < lo {
        st := st[j := NoRoom];
        return top;
      }
      t := Align(top - s);
      Move(bm[j].addr, t, s);
      bm := bm[j := BootMod(t, s)];
      st := st[j := Placed];
    }

    // mark the modules placed earlier, and stay below a module that runs past hi
    method First(tried: array<bool>, lo: nat, hi: nat) returns (top: nat)
      requires Valid() && Loaded(Now(), lo, hi) && tried.Length == |bm|
      modifies tried
      ensures top == TopOf(bm, lo, hi) && forall i | 0 <= i < |bm| :: tried[i] <==> st[i].Placed?
    {
      top := hi;
      var i := 0;
      assert bm[..0] == [];
      while i < |bm|
        invariant 0 <= i <= |bm| && top == TopOf(bm[..i], lo, hi)
        invariant forall k | 0 <= k < i :: tried[k] <==> st[k].Placed?
      {
        tried[i] := st[i].Placed?;
        var a, e := bm[i].addr, End32(bm[i]);
        FitsAt(Now(), lo, hi, i);
        TopNow(Now(), lo, hi, i);
        if !tried[i] && a >= lo && a < top && (e < a || e > hi) {
          top := a;
        }
        i := i + 1;
      }
      assert bm[..i] == bm;
    }

    // the modules inside the range, highest first
    method PackInside(tried: array<bool>, lo: nat, top0: nat, hi: nat, copy: bool, ghost s0: Snap, ghost b: int)
      returns (top: nat, ghost p: Pile)
      requires Valid() && tried.Length == |bm| == |s0.bm| && lo <= hi && bm == s0.bm && st == s0.st
      requires First1(s0, Now(), tried[..], lo, top0, hi, b, copy)
      modifies this`bm, this`st, mem, tried
      ensures Valid() && |bm| == tried.Length == |s0.bm| && top <= top0
      ensures Second(s0, Now(), tried[..], lo, top, hi, b, copy)
      ensures forall i | 0 <= i < |bm| && Inside(s0.bm[i], lo, hi) ::
        st[i].Placed? <==> !(Buried(s0.bm, lo, hi, i) || Stays(s0.bm, lo, hi, i))
      ensures Stacked(s0.st, bm, st, p, top) && p.from == top0 && Piling(s0.bm, tried[..], p, lo, top, hi)
      ensures forall i | 0 <= i < tried.Length && tried[i] :: st[i].Placed?
    {
      hide First1, Second, Going, Queue, PackedBut, Buried, Stays, Loaded, Fate1, Chosen, Stacked, Piling;
      top, p := top0, Pile(top0, [], 0);
      StackedNone(bm, st, top0);
      PilingNone(bm, tried[..], top0, lo, top, hi);
      while true
        invariant Valid() && tried.Length == |bm| == |s0.bm| && top <= top0
        invariant Stacked(s0.st, bm, st, p, top) && p.from == top0 && Piling(s0.bm, tried[..], p, lo, top, hi)
        invariant First1(s0, Now(), tried[..], lo, top, hi, b, copy)
        decreases Untried(tried[..])
      {
        ghost var s, tr, above := Now(), tried[..], top;
        FirstFacts(s0, s, tr, lo, top, hi, b, copy);
        GoingFacts(s0, s, tr, lo, top, hi, b);
        var j := Next(tried, lo, top, true);
        if j < 0 {
          FirstDone(s0, s, tr, lo, top, hi, b, copy);
          AllDone(s0, s, tr, lo, top, hi, b, copy);
          return;
        }
        UntriedLess(tr, j);
        ChosenIs(s0, s, tr, lo, top, j);
        ChosenRoom(s0, s, tr, lo, top, hi, b, copy, j);
        top := Place(tried, j, lo, top);
        FirstStep(s0, s, Now(), tr, lo, above, top, hi, b, copy, j);
        ghost var was := p;
        p := Pile(top0, was.order + [j], |was.order| + 1);
        StackedOn(s0.st, s.bm, s.st, was, above, j, top, bm, st, p);
        PilingStep(s0.bm, tr, was, lo, above, top, hi, j);
      }
    }

    // one of the others, copied below the rest if there is room
    method PackOther(tried: array<bool>, j: nat, lo: nat, top: nat, hi: nat, ghost s0: Snap, ghost b: int,
                     ghost p0: Pile)
      returns (t: nat, ghost p: Pile)
      requires Valid() && tried.Length == |bm| == |s0.bm| && j < |bm| && !tried[j]
      requires Second(s0, Now(), tried[..], lo, top, hi, b, true) && InTurn(s0, tried[..], hi, b, j)
      requires Stacked(s0.st, bm, st, p0, top) && Resting(s0.bm, bm, st, tried[..], p0, lo, hi)
      requires Turn(s0.bm, tried[..], hi, j)
      modifies this`bm, this`st, mem, tried
      ensures Valid() && |bm| == tried.Length && t <= top && tried[..] == old(tried[..])[j := true]
      ensures Second(s0, Now(), tried[..], lo, t, hi, b, true)
      ensures forall i | 0 <= i < |bm| && old(st)[i].Placed? :: st[i].Placed?
      ensures Stacked(s0.st, bm, st, p, t) && Resting(s0.bm, bm, st, tried[..], p, lo, hi)
      ensures Follows(p0, p)
    {
      hide Second, Going, PackedBut, Moved, InTurn, Fate2, Stacked, Resting, Turn;
      ghost var s, tr := Now(), tried[..];
      SecondFacts(s0, s, tr, lo, top, hi, b, true);
      GoingFacts(s0, s, tr, lo, top, hi, b);
      t := Place(tried, j, lo, top);
      if Room(s.bm[j].size, lo, top) {
        SecondPlaced(s0, s, Now(), tr, lo, top, t, hi, b, j);
        p := p0.(order := p0.order + [j]);
        PileCut(s0.st, s.bm, s.st, p0, top);
        StackedOn(s0.st, s.bm, s.st, p0, top, j, t, bm, st, p);
        RestingPlaced(s0.bm, s.bm, s.st, tr, p0, lo, hi, j, t);
      } else {
        SecondRefused(s0, s, Now(), tr, lo, top, hi, b, true, j);
        p := p0;
        PileCut(s0.st, s.bm, s.st, p0, top);
        StackedRefused(s0.st, s.bm, s.st, p0, top, j);
        RestingRefused(s0.bm, s.bm, s.st, tr, p0, lo, top, hi, j);
      }
    }

    // those starting under hi highest first, then those above
    method PackRest(tried: array<bool>, lo: nat, top1: nat, hi: nat, ghost s0: Snap, ghost b: int, ghost p0: Pile)
      returns (top: nat, ghost p: Pile)
      requires Valid() && tried.Length == |bm| == |s0.bm| && Second(s0, Now(), tried[..], lo, top1, hi, b, true)
      requires Stacked(s0.st, bm, st, p0, top1) && Resting(s0.bm, bm, st, tried[..], p0, lo, hi)
      requires p0.cut == |p0.order|
      modifies this`bm, this`st, mem, tried
      ensures Valid() && tried.Length == |bm| == |s0.bm| && top <= top1
      ensures Second(s0, Now(), tried[..], lo, top, hi, b, true)
      ensures forall i | 0 <= i < |bm| :: tried[i] && (old(st)[i].Placed? ==> st[i].Placed?)
      ensures Stacked(s0.st, bm, st, p, top) && Resting(s0.bm, bm, st, tried[..], p, lo, hi) && Follows(p0, p)
    {
      hide Second, Later, InTurn, Stacked, Resting, Turn;
      top, p := top1, p0;
      while true
        invariant Stacked(s0.st, bm, st, p, top) && Resting(s0.bm, bm, st, tried[..], p, lo, hi) && Follows(p0, p)
        invariant Valid() && tried.Length == |bm| == |old(st)| == |s0.bm| && top <= top1
        invariant Second(s0, Now(), tried[..], lo, top, hi, b, true)
        invariant forall i | 0 <= i < |bm| && old(st)[i].Placed? :: st[i].Placed?
        decreases Untried(tried[..])
      {
        SecondFacts(s0, Now(), tried[..], lo, top, hi, b, true);
        var j := Next(tried, 0, hi, false);
        if j < 0 {
          VictimUnder(s0, tried[..], lo, hi, b);
          break;
        }
        HighestTurn(s0, tried[..], lo, hi, b, j);
        UntriedLess(tried[..], j);
        top, p := PackOther(tried, j, lo, top, hi, s0, b, p);
      }
      for i := 0 to |bm|
        invariant Valid() && tried.Length == |bm| == |old(st)| == |s0.bm| && top <= top1
        invariant Stacked(s0.st, bm, st, p, top) && Resting(s0.bm, bm, st, tried[..], p, lo, hi) && Follows(p0, p)
        invariant Second(s0, Now(), tried[..], lo, top, hi, b, true) && (b < 0 || (b < |bm| && tried[b]))
        invariant forall i | 0 <= i < |bm| && old(st)[i].Placed? :: st[i].Placed?
        invariant forall k | 0 <= k < |bm| && !tried[k] :: i <= k && hi <= s0.bm[k].addr
      {
        if !tried[i] {
          ListedTurn(s0, tried[..], hi, b, i);
          top, p := PackOther(tried, i, lo, top, hi, s0, b, p);
        }
      }
    }

    /** dlm_bootpack.  Whatever the order and the overlaps of the moves, every module this call places
        has its original bytes at its new address and every other module is untouched, unless the table
        lets one be trampled; then that one alone has the bytes of the first copied over it.  Which of the
        modules inside the range the first pass moves is a matter of the table as well. */
    method Pack(lo: nat, hi: nat, copy: bool) returns (top: nat, ghost p: Pile)
      requires Valid() && Loaded(Now(), lo, hi)
      modifies this`bm, this`st, mem
      ensures Valid() && |bm| == |old(bm)| && lo <= top <= hi
      ensures !Trampled(old(bm), old(st), lo, hi, copy) ==> Packed(old(Now()), Now(), top, hi)
      ensures Trampled(old(bm), old(st), lo, hi, copy) ==>
        exists b: nat, f: nat :: Trampler(old(bm), old(st), lo, hi, copy, b, f)
      ensures forall b: nat, f: nat | Trampler(old(bm), old(st), lo, hi, copy, b, f) ::
        PackedBut(old(Now()), Now(), top, hi, b) && Tainted(old(Now()), Now(), hi, b, f)
      ensures forall b: nat, f: nat | Trampler(old(bm), old(st), lo, hi, copy, b, f) && Differs(old(Now()), hi, b, f) ::
        !Packed(old(Now()), Now(), top, hi)
      ensures Limit(old(bm), old(st), lo, hi, p.from)
      ensures Stacked(old(st), bm, st, p, top) && Ordered(old(bm), p, hi) && (!copy ==> p.cut == |p.order|)
      ensures forall i: nat :: i in p.order[..p.cut] <==>
        i < |bm| && Inside(old(bm)[i], lo, hi) && !(Buried(old(bm), lo, hi, i) || Stays(old(bm), lo, hi, i))
      ensures !copy ==> forall i | 0 <= i < |bm| && Inside(old(bm)[i], lo, hi) ::
        st[i].Placed? <==> !(Buried(old(bm), lo, hi, i) || Stays(old(bm), lo, hi, i))
      ensures copy ==> forall i | 0 <= i < |bm| && !st[i].Placed? ::
        st[i].NoRoom? && !Room(bm[i].size, lo, top) && exists k :: Missed(old(bm), bm, p, lo, hi, i, k)
      ensures copy ==> forall i | 0 <= i < |bm| && Inside(old(bm)[i], lo, hi) && !Buried(old(bm), lo, hi, i) ::
        st[i].Placed?
    {
      hide Packed, PackedBut, Loaded, First1, Second, Victim, Trampled, Trampler, Buried, Stays, Tainted;
      hide Differs, Inside, TopOf, Stacked, Ordered, Missed, Piling, Resting, Limit;
      ghost var s0 := Now();
      LoadedFacts(s0, lo, hi);
      ghost var b := OneVictim(bm, st, lo, hi);
      var n := |bm|;
      var tried := new bool[n];
      var top0 := First(tried, lo, hi);
      FirstBegins(s0, tried[..], lo, hi, b, copy);
      LimitTop(s0.bm, s0.st, lo, hi);
      top, p := PackInside(tried, lo, top0, hi, copy, s0, b);
      RestingFirst(s0.bm, bm, st, tried[..], p, lo, top, hi);
      FirstOnes(s0, bm, st, tried[..], lo, top, hi, p);
      if copy {
        top, p := PackRest(tried, lo, top, hi, s0, b, p);
        AllPlaced(s0, Now(), tried[..], lo, top, hi, b);
        StaysEmpty(s0.bm, lo, hi);
      }
      RestingEnd(s0.bm, bm, st, tried[..], p, lo, hi);
      SecondFacts(s0, Now(), tried[..], lo, top, hi, b, copy);
      Verdict(s0, Now(), tried[..], lo, top, hi, b, copy);
      forall b: nat, f: nat | Trampler(s0.bm, s0.st, lo, hi, copy, b, f) && Differs(s0, hi, b, f)
        ensures !Packed(s0, Now(), top, hi)
      {
        TaintBreaks(s0, Now(), top, hi, b, f);
      }
    }

    /** Two modules at 8, the one with bytes at the top already: without copy the empty one is left. */
    method EmptyLeft() returns (top: nat)
      requires Valid() && bm == [BootMod(8, 8), BootMod(8, 0)] && st == [Loose, Loose]
      modifies this`bm, this`st, mem
      ensures |st| == 2 && st[0].Placed? && !st[1].Placed?
    {
      hide Stays, Buried, Packed, Trampled, Trampler, Tainted, PackedBut, Differs;
      EmptyStays();
      ghost var p;
      top, p := Pack(0, 16, false);
    }

    /** The three modules of UnalignedEnd: in either mode the second has the bytes of the third in the end,
        so the packing fails when they are not its own. */
    method ThirdOver(copy: bool) returns (top: nat)
      requires Valid() && bm == [BootMod(4, 0), BootMod(4, 6), BootMod(0, 4)] && st == [Loose, Loose, Loose]
      requires mem[0] != mem[4]
      modifies this`bm, this`st, mem
      ensures !Packed(old(Now()), Now(), top, 10)
    {
      hide Stays, Buried, Packed, Trampled, Trampler, Tainted, PackedBut, Tabled;
      ghost var s0 := Now();
      UnalignedEnd(copy);
      assert Hit(bm, 10, 1, 2, 4);
      assert Differs(s0, 10, 1, 2);
      ghost var p;
      top, p := Pack(0, 10, copy);
    }
  }

  // the loop of First, one module on
  lemma {:induction false} TopNow(s: Snap, lo: nat, hi: nat, i: nat)
    requires Loaded(s, lo, hi) && i < |s.bm|
    ensures var t, a, e := TopOf(s.bm[..i], lo, hi), s.bm[i].addr, End32(s.bm[i]);
      TopOf(s.bm[..i + 1], lo, hi) ==
      (if !s.st[i].Placed? && a >= lo && a < t && (e < a || e > hi) then a else t)
  {
    assert s.bm[..i + 1][..i] == s.bm[..i];
    TopFacts(s.bm[..i], lo, hi);
    WholeIsInside(s.bm[i], lo, hi);
  }

  lemma LoadedFacts(s: Snap, lo: nat, hi: nat)
    requires Loaded(s, lo, hi)
    ensures Tabled(s.bm, s.st, lo, hi) && lo <= hi
  {
  }

  ghost function Untried(tried: seq<bool>): set<nat> {
    set i: nat | i < |tried| && !tried[i]
  }

  lemma UntriedLess(tried: seq<bool>, j: nat)
    requires j < |tried| && !tried[j]
    ensures Untried(tried[j := true]) < Untried(tried)
  {
    assert j in Untried(tried) && j !in Untried(tried[j := true]);
  }

  // what Next finds is the one the table says
  lemma ChosenIs(s0: Snap, s: Snap, tried: seq<bool>, lo: nat, top: nat, j: nat)
    requires Sizes(s0, s) && |tried| == |s0.bm| && j < |tried| && !tried[j]
    requires forall i | 0 <= i < |tried| && !tried[i] :: Fresh(s0, s, lo, top, i)
    requires Eligible(s.bm[j], lo, top, true)
    requires forall i | 0 <= i < |tried| && !tried[i] && Eligible(s.bm[i], lo, top, true) ::
      s.bm[i].addr <= s.bm[j].addr && (i < j ==> s.bm[i].addr < s.bm[j].addr)
    ensures Chosen(s0.bm, tried, j, lo, top)
  {
    hide Eligible;
    assert Fresh(s0, s, lo, top, j);
    forall i | 0 <= i < |tried| && i != j && !tried[i] && Inside(s0.bm[i], lo, top) ensures Before(s0.bm, j, i) {
      assert Fresh(s0, s, lo, top, i);
    }
  }

  lemma ChosenRoom(s0: Snap, s: Snap, tried: seq<bool>, lo: nat, top: nat, hi: nat, b: int, copy: bool, j: nat)
    requires First1(s0, s, tried, lo, top, hi, b, copy) && Chosen(s0.bm, tried, j, lo, top)
    ensures Sizes(s0, s) && s.bm[j] == s0.bm[j] && lo <= top && Room(s.bm[j].size, lo, top) && s.bm[j].size <= top
    ensures !s0.st[j].Placed? && !s.st[j].Placed?
  {
    hide First1, Going, PackedBut, Queue, Tabled, Ranged, Fate1;
    FirstFacts(s0, s, tried, lo, top, hi, b, copy);
    RangedTop(s0.bm, s0.st, tried, lo, top, hi, b);
    ChosenFits(s0.bm, s0.st, tried, lo, top, hi, b, j);
    GoingFacts(s0, s, tried, lo, top, hi, b);
    assert Fresh(s0, s, lo, top, j);
  }

  lemma AllDone(s0: Snap, s: Snap, tried: seq<bool>, lo: nat, top: nat, hi: nat, b: int, copy: bool)
    requires First1(s0, s, tried, lo, top, hi, b, copy)
    requires forall k | 0 <= k < |tried| && !tried[k] :: !Inside(s0.bm[k], lo, top)
    ensures Sizes(s0, s) && lo <= hi && forall i | 0 <= i < |s0.bm| && Inside(s0.bm[i], lo, hi) ::
      s.st[i].Placed? <==> !(Buried(s0.bm, lo, hi, i) || Stays(s0.bm, lo, hi, i))
  {
    hide Going, PackedBut, Queue, Tabled, Buried, Stays, Fate1;
    FirstFacts(s0, s, tried, lo, top, hi, b, copy);
    GoingFacts(s0, s, tried, lo, top, hi, b);
    forall i | 0 <= i < |s0.bm| && Inside(s0.bm[i], lo, hi)
      ensures s.st[i].Placed? <==> !(Buried(s0.bm, lo, hi, i) || Stays(s0.bm, lo, hi, i))
    {
      QueueDone(s0.bm, s0.st, tried, lo, top, hi, b, i);
      assert !tried[i] ==> Fresh(s0, s, lo, top, i);
    }
  }

  // the victim is the highest module with bytes that starts below hi
  lemma HighestTurn(s0: Snap, tried: seq<bool>, lo: nat, hi: nat, b: int, j: nat)
    requires Tabled(s0.bm, s0.st, lo, hi) && |tried| == |s0.bm| && j < |tried| && !tried[j] && s0.bm[j].addr < hi
    requires -1 <= b < |tried| && (b >= 0 ==> Buried(s0.bm, lo, hi, b))
    requires forall i | 0 <= i < |tried| && !tried[i] && s0.bm[i].addr < hi ::
      s0.bm[i].addr <= s0.bm[j].addr && (i < j ==> s0.bm[i].addr < s0.bm[j].addr)
    ensures InTurn(s0, tried, hi, b, j) && Turn(s0.bm, tried, hi, j)
  {
    hide Tabled, Buried;
    if b >= 0 && !tried[b] && s0.bm[j].size > 0 {
      BuriedEnd(s0.bm, lo, hi, b);
      BuriedTop(s0.bm, s0.st, lo, hi, b, j);
    }
  }

  lemma VictimUnder(s0: Snap, tried: seq<bool>, lo: nat, hi: nat, b: int)
    requires |tried| == |s0.bm| && -1 <= b < |tried| && (b >= 0 ==> Buried(s0.bm, lo, hi, b))
    requires forall i | 0 <= i < |tried| && !tried[i] :: hi <= s0.bm[i].addr
    ensures b < 0 || tried[b]
  {
  }

  lemma ListedTurn(s0: Snap, tried: seq<bool>, hi: nat, b: int, i: nat)
    requires |tried| == |s0.bm| && i < |tried| && !tried[i] && (b < 0 || (b < |tried| && tried[b]))
    requires forall k | 0 <= k < |tried| && !tried[k] :: i <= k && hi <= s0.bm[k].addr
    ensures InTurn(s0, tried, hi, b, i) && Turn(s0.bm, tried, hi, i)
  {
  }

  // the modules the first pass has placed
  lemma FirstOnes(s0: Snap, bm: seq<BootMod>, st: seq<Status>, tried: seq<bool>, lo: nat, top: nat, hi: nat, p: Pile)
    requires Tabled(s0.bm, s0.st, lo, hi) && Stacked(s0.st, bm, st, p, top) && Piling(s0.bm, tried, p, lo, top, hi)
    requires |bm| == |s0.bm| && lo <= hi
    requires forall i | 0 <= i < |bm| && Inside(s0.bm[i], lo, hi) ::
      st[i].Placed? <==> !(Buried(s0.bm, lo, hi, i) || Stays(s0.bm, lo, hi, i))
    ensures p.cut == |p.order| && p.order[..p.cut] == p.order
    ensures forall i: nat :: i in p.order <==>
      i < |bm| && Inside(s0.bm[i], lo, hi) && !(Buried(s0.bm, lo, hi, i) || Stays(s0.bm, lo, hi, i))
  {
    hide Buried, Stays;
    forall i: nat | i < |bm| && Inside(s0.bm[i], lo, hi) ensures s0.st[i] != Placed {
    }
  }

  lemma StaysEmpty(bm: seq<BootMod>, lo: nat, hi: nat)
    requires lo <= hi
    ensures forall i: nat | Stays(bm, lo, hi, i) :: i < |bm| && bm[i].size == 0
  {
  }

  // with copy, the empty ones that stayed in the first pass are placed, and the rest is placed or has no room
  lemma AllPlaced(s0: Snap, s: Snap, tried: seq<bool>, lo: nat, top: nat, hi: nat, b: int)
    requires Second(s0, s, tried, lo, top, hi, b, true) && forall i | 0 <= i < |tried| :: tried[i]
    ensures Sizes(s0, s) && lo <= top <= hi
    ensures forall i | 0 <= i < |s.bm| :: s.st[i].Placed? || (s.st[i].NoRoom? && !Room(s.bm[i].size, lo, top))
    ensures forall i | 0 <= i < |s.bm| && s0.bm[i].size == 0 && Inside(s0.bm[i], lo, hi) :: s.st[i].Placed?
  {
    hide PackedBut, Fate2, Going, ClearBut, TopOf, Tabled, Victim, Second;
    SecondFacts(s0, s, tried, lo, top, hi, b, true);
    forall i | 0 <= i < |s.bm| && s0.bm[i].size == 0 && Inside(s0.bm[i], lo, hi) ensures s.st[i].Placed? {
      FitsAt(s0, lo, hi, i);
      assert Room(0, lo, top);
    }
  }
}
