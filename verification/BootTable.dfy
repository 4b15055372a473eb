/**
 The table of boot modules and the order in which they are packed: what the
 table alone decides, before the first byte moves.
 */
module BootTable {

  const ADDRESSES := 0x1_0000_0000   // 32-bit addresses

  datatype Status = Loose | Placed | NoRoom

  // bm_addr and bm_size
  datatype BootMod = BootMod(addr: nat, size: nat)

  // x & ~3
  function Align(x: nat): (r: nat)
    ensures r % 4 == 0 && r <= x < r + 4
  {
    x - x % 4
  }

  // what a module takes off an aligned top
  function Words(size: nat): (r: nat)
    ensures r % 4 == 0 && size <= r < size + 4
  {
    Align(size + 3)
  }

  predicate Apart(a: BootMod, b: BootMod) {
    a.addr + a.size <= b.addr || b.addr + b.size <= a.addr
  }

  // wholly in [lo, top)
  predicate Inside(b: BootMod, lo: nat, top: nat) {
    lo <= b.addr < top && b.addr + b.size <= top
  }

  // starts elsewhere, and has no byte in [lo, top)
  predicate Outside(b: BootMod, lo: nat, top: nat) {
    (b.addr < lo && b.addr + b.size <= lo) || top <= b.addr
  }

  // bm_place finds space between lo and top
  predicate Room(size: nat, lo: nat, top: nat)
    requires lo <= top
  {
    size <= top - lo && lo <= Align(top - size)
  }

  // the end address as the 32-bit sum the source computes
  function End32(b: BootMod): nat {
    (b.addr + b.size) % ADDRESSES
  }

  // what bm_next looks for
  predicate Eligible(b: BootMod, lo: nat, hi: nat, whole: bool) {
    lo <= b.addr < hi && (whole ==> b.addr <= End32(b) <= hi)
  }

  // the wrap test makes the 32-bit comparison the true one
  lemma WholeIsInside(b: BootMod, lo: nat, hi: nat)
    requires b.addr + b.size <= ADDRESSES && b.size < ADDRESSES && hi < ADDRESSES
    ensures Eligible(b, lo, hi, true) <==> Inside(b, lo, hi)
    ensures End32(b) < b.addr || End32(b) > hi <==> b.addr + b.size > hi || b.addr > hi
  {
  }

  /** What dlm_bootpack is given: modules at 4-aligned addresses, none overlapping another, none across
      lo, and none placed earlier inside the range. */
  ghost predicate Tabled(bm: seq<BootMod>, st: seq<Status>, lo: nat, hi: nat) {
    && |st| == |bm| && lo <= hi < ADDRESSES
    && (forall i | 0 <= i < |bm| :: Sized(bm[i]))
    && (forall i, j | 0 <= i < |bm| && 0 <= j < |bm| && i != j :: Apart(bm[i], bm[j]))
    && (forall i | 0 <= i < |bm| :: !(bm[i].addr < lo < bm[i].addr + bm[i].size))
    && (forall i | 0 <= i < |bm| && st[i].Placed? :: Outside(bm[i], lo, hi))
  }

  predicate Sized(b: BootMod) {
    b.addr + b.size <= ADDRESSES && b.size < ADDRESSES && b.addr % 4 == 0
  }

  // ----- where the first pass begins

  // starts in the range and runs past its end
  predicate Runs(b: BootMod, lo: nat, hi: nat) {
    lo <= b.addr < hi < b.addr + b.size
  }

  // the lowest start of a module that runs past hi, or hi
  function TopOf(bm: seq<BootMod>, lo: nat, hi: nat): nat {
    if bm == [] then hi else
      var t, last := TopOf(bm[..|bm|-1], lo, hi), bm[|bm|-1];
      if Runs(last, lo, hi) && last.addr < t then last.addr else t
  }

  lemma {:induction false} TopFacts(bm: seq<BootMod>, lo: nat, hi: nat)
    requires lo <= hi
    ensures lo <= TopOf(bm, lo, hi) <= hi
    ensures forall k | 0 <= k < |bm| && Runs(bm[k], lo, hi) :: TopOf(bm, lo, hi) <= bm[k].addr
    ensures TopOf(bm, lo, hi) == hi ||
      exists k :: 0 <= k < |bm| && Runs(bm[k], lo, hi) && bm[k].addr == TopOf(bm, lo, hi)
  {
    if bm != [] {
      var front := bm[..|bm|-1];
      TopFacts(front, lo, hi);
      if k :| 0 <= k < |front| && Runs(front[k], lo, hi) && front[k].addr == TopOf(front, lo, hi) {
        assert bm[k] == front[k];
      }
    }
  }

  // ----- the order of the first pass

  // i goes before k: it starts higher, or is listed first
  predicate Before(bm: seq<BootMod>, i: nat, k: nat)
    requires i < |bm| && k < |bm|
  {
    bm[k].addr < bm[i].addr || (bm[k].addr == bm[i].addr && i < k)
  }

  // the first module to go
  ghost predicate Lead(bm: seq<BootMod>, lo: nat, top: nat, g: nat) {
    && g < |bm| && Inside(bm[g], lo, top)
    && forall k | 0 <= k < |bm| && k != g && Inside(bm[k], lo, top) :: Before(bm, g, k)
  }

  lemma OneLead(bm: seq<BootMod>, lo: nat, top: nat, g: nat, g': nat)
    requires Lead(bm, lo, top, g) && Lead(bm, lo, top, g')
    ensures g' == g
  {
  }

  /** An empty module is listed before b at its start, and b reaches past the last aligned address below
      hi.  The empty one goes first, to that address, and b then no longer fits below it. */
  ghost predicate Buried(bm: seq<BootMod>, lo: nat, hi: nat, b: nat) {
    && b < |bm| && bm[b].size > 0 && Inside(bm[b], lo, hi) && Align(hi) < bm[b].addr + bm[b].size
    && exists e :: 0 <= e < b && bm[e] == BootMod(bm[b].addr, 0)
  }

  // the buried module, or -1; there is at most one
  ghost predicate Victim(bm: seq<BootMod>, lo: nat, hi: nat, b: int) {
    && -1 <= b < |bm| && (b >= 0 ==> Buried(bm, lo, hi, b))
    && forall i: nat | Buried(bm, lo, hi, i) :: i == b
  }

  // no module with bytes starts above a buried one
  lemma BuriedTop(bm: seq<BootMod>, st: seq<Status>, lo: nat, hi: nat, b: nat, j: nat)
    requires Tabled(bm, st, lo, hi) && Buried(bm, lo, hi, b)
    requires j < |bm| && bm[b].addr <= bm[j].addr < hi && bm[j].size > 0
    ensures j == b
  {
  }

  lemma OneVictim(bm: seq<BootMod>, st: seq<Status>, lo: nat, hi: nat) returns (b: int)
    requires Tabled(bm, st, lo, hi)
    ensures Victim(bm, lo, hi, b)
  {
    if i: nat :| Buried(bm, lo, hi, i) {
      b := i;
      forall k: nat | Buried(bm, lo, hi, k) ensures k == b {
        if bm[b].addr <= bm[k].addr {
          BuriedTop(bm, st, lo, hi, b, k);
        } else {
          BuriedTop(bm, st, lo, hi, k, b);
        }
      }
    } else {
      b := -1;
    }
  }

  lemma NotRunning(bm: seq<BootMod>, st: seq<Status>, lo: nat, hi: nat, b: nat, k: nat)
    requires Tabled(bm, st, lo, hi) && Buried(bm, lo, hi, b) && k < |bm|
    ensures !Runs(bm[k], lo, hi)
  {
    if k != b {
      assert Apart(bm[b], bm[k]);
    }
  }

  lemma {:induction false} BuriedLow(bm: seq<BootMod>, st: seq<Status>, lo: nat, hi: nat, b: nat)
    requires Tabled(bm, st, lo, hi) && Buried(bm, lo, hi, b)
    ensures bm[b].addr <= Align(hi) < hi && TopOf(bm, lo, hi) == hi && !st[b].Placed?
  {
    TopFacts(bm, lo, hi);
    forall k | 0 <= k < |bm| ensures !Runs(bm[k], lo, hi) {
      NotRunning(bm, st, lo, hi, b, k);
    }
  }

  // ----- the empty modules that are left

  ghost function WeightTo(bm: seq<BootMod>, ks: set<nat>, n: nat): (w: nat)
    requires n <= |bm|
    ensures w % 4 == 0
  {
    if n == 0 then 0 else WeightTo(bm, ks, n - 1) + if n - 1 in ks then Words(bm[n-1].size) else 0
  }

  // the words that the modules numbered in ks take
  ghost function Weight(bm: seq<BootMod>, ks: set<nat>): (w: nat)
    ensures w % 4 == 0
  {
    WeightTo(bm, ks, |bm|)
  }

  lemma {:induction false} WeightSame(bm: seq<BootMod>, ks: set<nat>, ks': set<nat>, n: nat)
    requires n <= |bm| && forall k | 0 <= k < n && bm[k].size > 0 :: k in ks <==> k in ks'
    ensures WeightTo(bm, ks, n) == WeightTo(bm, ks', n)
  {
    if n > 0 {
      WeightSame(bm, ks, ks', n - 1);
    }
  }

  lemma {:induction false} WeightMore(bm: seq<BootMod>, ks: set<nat>, j: nat, n: nat)
    requires n <= |bm| && j < |bm| && j !in ks
    ensures WeightTo(bm, ks + {j}, n) == WeightTo(bm, ks, n) + if j < n then Words(bm[j].size) else 0
  {
    if n > 0 {
      WeightMore(bm, ks, j, n - 1);
    }
  }

  // the modules that go before i, but for the first of all and the buried one
  ghost function Ahead(bm: seq<BootMod>, lo: nat, hi: nat, g: nat, i: nat): set<nat>
    requires i < |bm|
  {
    set k: nat | k < |bm| && k != g && Inside(bm[k], lo, TopOf(bm, lo, hi)) && !Buried(bm, lo, hi, k)
                 && Before(bm, k, i)
  }

  // when its turn comes, the modules gone before i leave nothing between its start and the top
  ghost predicate Filled(bm: seq<BootMod>, lo: nat, hi: nat, g: nat, i: nat)
    requires lo <= hi
  {
    && Lead(bm, lo, TopOf(bm, lo, hi), g) && i < |bm| && i != g && bm[g].size <= TopOf(bm, lo, hi)
    && Align(TopOf(bm, lo, hi) - bm[g].size) == bm[i].addr + Weight(bm, Ahead(bm, lo, hi, g, i))
  }

  /** An empty module is left where it is: one at its start runs past hi, or those that go before it fill
      the range down to its start. */
  ghost predicate Stays(bm: seq<BootMod>, lo: nat, hi: nat, i: nat)
    requires lo <= hi
  {
    && i < |bm| && bm[i].size == 0
    && ((exists k :: 0 <= k < |bm| && Runs(bm[k], lo, hi) && bm[k].addr == bm[i].addr)
        || exists g :: Filled(bm, lo, hi, g, i))
  }

  // ----- the first pass on the table

  // placed by this pass
  ghost predicate Gone(st: seq<Status>, tried: seq<bool>, i: nat)
    requires |st| == |tried|
  {
    i < |tried| && tried[i] && !st[i].Placed?
  }

  ghost function GoneSet(st: seq<Status>, tried: seq<bool>): set<nat>
    requires |st| == |tried|
  {
    set i: nat | i < |tried| && Gone(st, tried, i)
  }

  // the next module to go: of those that wait below top, the one before all others
  ghost predicate Chosen(bm: seq<BootMod>, tried: seq<bool>, j: nat, lo: nat, top: nat)
    requires |tried| == |bm|
  {
    && j < |tried| && !tried[j] && Inside(bm[j], lo, top)
    && forall i | 0 <= i < |tried| && i != j && !tried[i] && Inside(bm[i], lo, top) :: Before(bm, j, i)
  }

  // top is what those gone have left of the range
  ghost predicate TopIs(bm: seq<BootMod>, st: seq<Status>, tried: seq<bool>, lo: nat, top: nat, hi: nat)
    requires |st| == |tried| == |bm| && lo <= hi
  {
    || (top == TopOf(bm, lo, hi) && GoneSet(st, tried) == {})
    || exists g :: GoneFirst(bm, st, tried, lo, top, hi, g)
  }

  ghost predicate GoneFirst(bm: seq<BootMod>, st: seq<Status>, tried: seq<bool>, lo: nat, top: nat, hi: nat, g: nat)
    requires |st| == |tried| == |bm| && lo <= hi
  {
    && Lead(bm, lo, TopOf(bm, lo, hi), g) && Gone(st, tried, g) && bm[g].size <= TopOf(bm, lo, hi)
    && Align(TopOf(bm, lo, hi) - bm[g].size) == top + Weight(bm, GoneSet(st, tried) - {g})
  }

  ghost predicate Ranged(bm: seq<BootMod>, st: seq<Status>, tried: seq<bool>, lo: nat, top: nat, hi: nat, b: int) {
    && Tabled(bm, st, lo, hi) && |tried| == |bm| && Victim(bm, lo, hi, b)
    && lo <= top <= TopOf(bm, lo, hi) && (top == hi || top % 4 == 0)
    && (forall i | 0 <= i < |bm| && st[i].Placed? :: tried[i])
    && (forall i: nat | Gone(st, tried, i) :: Inside(bm[i], lo, TopOf(bm, lo, hi)))
    && (b >= 0 ==> !tried[b] && (top <= Align(hi) || GoneSet(st, tried) == {}))
  }

  /** Between two moves of the first pass: all with bytes but the victim wait whole below top, an empty one
      that no longer waits is one that stays, and none of those has gone. */
  ghost predicate Queue(bm: seq<BootMod>, st: seq<Status>, tried: seq<bool>, lo: nat, top: nat, hi: nat, b: int) {
    && Ranged(bm, st, tried, lo, top, hi, b) && TopIs(bm, st, tried, lo, top, hi)
    && (forall i | 0 <= i < |bm| && !tried[i] && i != b && Inside(bm[i], lo, hi) ::
          Inside(bm[i], lo, top) || Stays(bm, lo, hi, i))
    && (forall i: nat | Gone(st, tried, i) :: !Stays(bm, lo, hi, i))
    && (forall k: nat, i | Gone(st, tried, k) && 0 <= i < |bm| && !tried[i] && Inside(bm[i], lo, top) ::
          Before(bm, k, i))
  }

  // it is placed at or above where it lies, so there is room, and each step lowers top
  lemma ChosenFits(bm: seq<BootMod>, st: seq<Status>, tried: seq<bool>, lo: nat, top: nat, hi: nat, b: int, j: nat)
    requires Ranged(bm, st, tried, lo, top, hi, b) && Chosen(bm, tried, j, lo, top)
    ensures bm[j].size <= top && bm[j].addr <= Align(top - bm[j].size) && Room(bm[j].size, lo, top)
    ensures !st[j].Placed? && !Gone(st, tried, j)
  {
  }

  // the empty module that buries b is the first to go
  lemma EmptyFirst(bm: seq<BootMod>, st: seq<Status>, tried: seq<bool>, lo: nat, hi: nat, b: nat, j: nat)
    requires Tabled(bm, st, lo, hi) && |tried| == |bm| && Buried(bm, lo, hi, b) && Chosen(bm, tried, j, lo, hi)
    requires forall i | 0 <= i < |bm| && Inside(bm[i], lo, hi) :: !tried[i]
    ensures j != b && bm[j] == BootMod(bm[b].addr, 0)
  {
    var e :| 0 <= e < b && bm[e] == BootMod(bm[b].addr, 0);
    assert Inside(bm[e], lo, hi);
    if bm[j].size > 0 {
      BuriedTop(bm, st, lo, hi, b, j);
    }
  }

  // above the last aligned address nothing has gone yet
  lemma NoneGone(bm: seq<BootMod>, st: seq<Status>, tried: seq<bool>, lo: nat, top: nat, hi: nat, b: int)
    requires Ranged(bm, st, tried, lo, top, hi, b) && b >= 0 && top > Align(hi)
    ensures top == hi && forall i | 0 <= i < |bm| && Inside(bm[i], lo, hi) :: !tried[i]
  {
    hide Victim;
    TopFacts(bm, lo, hi);
    WaitsAll(bm, st, tried, lo, hi);
  }

  lemma WaitsAll(bm: seq<BootMod>, st: seq<Status>, tried: seq<bool>, lo: nat, hi: nat)
    requires Tabled(bm, st, lo, hi) && |tried| == |bm| && GoneSet(st, tried) == {}
    ensures forall i | 0 <= i < |bm| && Inside(bm[i], lo, hi) :: !tried[i]
  {
    forall i: nat | i < |bm| && Inside(bm[i], lo, hi) ensures !tried[i] {
      assert i !in GoneSet(st, tried);
    }
  }

  lemma RangedFacts(bm: seq<BootMod>, st: seq<Status>, tried: seq<bool>, lo: nat, top: nat, hi: nat, b: int)
    requires Ranged(bm, st, tried, lo, top, hi, b)
    ensures Tabled(bm, st, lo, hi) && |tried| == |bm| == |st| && Victim(bm, lo, hi, b) && lo <= top && lo <= hi
    ensures b >= 0 ==> Buried(bm, lo, hi, b) && !tried[b]
  {
  }

  // The victim is not chosen: the empty module at its start is, and then it does not fit.
  lemma VictimLeft(bm: seq<BootMod>, st: seq<Status>, tried: seq<bool>, lo: nat, top: nat, hi: nat, b: int, j: nat)
    requires Ranged(bm, st, tried, lo, top, hi, b) && Chosen(bm, tried, j, lo, top) && b >= 0
    ensures j != b && bm[j].size <= top && Align(top - bm[j].size) <= Align(hi)
    ensures Align(hi) < top ==> bm[j] == BootMod(bm[b].addr, 0) && top == hi
  {
    hide Ranged, Tabled;
    RangedFacts(bm, st, tried, lo, top, hi, b);
    if top > Align(hi) {
      NoneGone(bm, st, tried, lo, top, hi, b);
      EmptyFirst(bm, st, tried, lo, hi, b, j);
    }
  }

  // Of two modules at one start, the one with bytes waits on when the empty one goes, or is buried.
  lemma SameStart(bm: seq<BootMod>, st: seq<Status>, tried: seq<bool>, lo: nat, top: nat, hi: nat, b: int, j: nat,
                  k: nat)
    requires Ranged(bm, st, tried, lo, top, hi, b) && Chosen(bm, tried, j, lo, top)
    requires k < |bm| && k != j && !tried[k] && Inside(bm[k], lo, top) && bm[k].addr == bm[j].addr && bm[k].size > 0
    requires k != b
    ensures bm[j].size == 0 && Inside(bm[k], lo, Align(top))
  {
    assert Apart(bm[k], bm[j]);
    assert !Buried(bm, lo, hi, k);
    assert bm[j] == BootMod(bm[k].addr, 0);
  }

  // what waits below the chosen one waits on, unless it is an empty module at its start and top comes down to it
  lemma WaitsOn(bm: seq<BootMod>, st: seq<Status>, tried: seq<bool>, lo: nat, top: nat, hi: nat, b: int, j: nat, i: nat)
    requires Ranged(bm, st, tried, lo, top, hi, b) && Chosen(bm, tried, j, lo, top) && bm[j].size <= top
    requires i < |bm| && i != j && i != b && !tried[i] && Inside(bm[i], lo, top)
    ensures var d := Align(top - bm[j].size);
      Inside(bm[i], lo, d) || (bm[i].size == 0 && bm[i].addr == bm[j].addr == d)
  {
    ChosenFits(bm, st, tried, lo, top, hi, b, j);
    assert Apart(bm[i], bm[j]);
    if bm[i].size > 0 && bm[i].addr == bm[j].addr {
      SameStart(bm, st, tried, lo, top, hi, b, j, i);
    }
  }

  // with bytes and neither buried nor tried, it waits whole
  lemma {:induction false} StillWaits(bm: seq<BootMod>, st: seq<Status>, tried: seq<bool>, lo: nat, top: nat,
                                      hi: nat, b: int, k: nat)
    requires Queue(bm, st, tried, lo, top, hi, b) && k < |bm| && !tried[k] && bm[k].size > 0
    requires Inside(bm[k], lo, TopOf(bm, lo, hi)) && !Buried(bm, lo, hi, k)
    ensures Inside(bm[k], lo, top) && k != b
  {
    hide TopIs, Gone;
    TopFacts(bm, lo, hi);
  }

  // A module with bytes that goes before an empty one that waits has gone, when the chosen one is not after it.
  lemma {:induction false} GoneAhead(bm: seq<BootMod>, st: seq<Status>, tried: seq<bool>, lo: nat, top: nat, hi: nat,
                                     b: int, j: nat, i: nat, k: nat)
    requires Queue(bm, st, tried, lo, top, hi, b) && Chosen(bm, tried, j, lo, top) && bm[j].size <= top
    requires i < |bm| && !tried[i] && Inside(bm[i], lo, top)
    requires i == j || (bm[i].addr == bm[j].addr && bm[i].addr >= Align(top - bm[j].size))
    requires k < |bm| && bm[k].size > 0 && Inside(bm[k], lo, TopOf(bm, lo, hi)) && !Buried(bm, lo, hi, k)
    requires Before(bm, k, i)
    ensures k == j || tried[k]
  {
    hide Queue, Ranged, Tabled, Buried, Victim;
    QueueFacts(bm, st, tried, lo, top, hi, b);
    RangedFacts(bm, st, tried, lo, top, hi, b);
    if k != j && !tried[k] {
      StillWaits(bm, st, tried, lo, top, hi, b, k);
      assert bm[k].addr == bm[j].addr;
      SameStart(bm, st, tried, lo, top, hi, b, j, k);
    }
  }

  // so the words taken by those gone are those of the modules ahead
  lemma AheadGone(bm: seq<BootMod>, st: seq<Status>, tried: seq<bool>, lo: nat, top: nat, hi: nat, b: int, j: nat,
                  i: nat, g: nat, ks: set<nat>)
    requires Queue(bm, st, tried, lo, top, hi, b) && Chosen(bm, tried, j, lo, top) && bm[j].size <= top
    requires i < |bm| && !tried[i] && Inside(bm[i], lo, top)
    requires i == j || (bm[i].addr == bm[j].addr && bm[i].addr >= Align(top - bm[j].size) && j < i)
    requires ks == (if i == j then GoneSet(st, tried) else GoneSet(st, tried) + {j}) - {g} && j != b
    ensures Weight(bm, Ahead(bm, lo, hi, g, i)) == Weight(bm, ks)
  {
    hide TopIs;
    TopFacts(bm, lo, hi);
    forall k | 0 <= k < |bm| && bm[k].size > 0 && k in ks ensures k in Ahead(bm, lo, hi, g, i) {
      assert Gone(st, tried, k) || k == j;
      assert Inside(bm[k], lo, TopOf(bm, lo, hi)) && Before(bm, k, i);
      assert !Buried(bm, lo, hi, k);
    }
    forall k | 0 <= k < |bm| && bm[k].size > 0 && k in Ahead(bm, lo, hi, g, i) ensures k in ks {
      GoneAhead(bm, st, tried, lo, top, hi, b, j, i, k);
      assert tried[k] ==> Gone(st, tried, k);
    }
    WeightSame(bm, Ahead(bm, lo, hi, g, i), ks, |bm|);
  }

  // the table state after the chosen one has gone
  lemma GoneMore(st: seq<Status>, tried: seq<bool>, j: nat)
    requires |st| == |tried| && j < |tried| && !tried[j] && !st[j].Placed?
    ensures GoneSet(st, tried[j := true]) == GoneSet(st, tried) + {j} && j !in GoneSet(st, tried)
    ensures forall i: nat :: Gone(st, tried[j := true], i) <==> i == j || Gone(st, tried, i)
  {
  }

  lemma FirstIsGone(bm: seq<BootMod>, st: seq<Status>, tried: seq<bool>, lo: nat, top: nat, hi: nat)
    requires |st| == |tried| == |bm| && lo <= hi
    ensures forall g: nat | GoneFirst(bm, st, tried, lo, top, hi, g) :: g in GoneSet(st, tried)
  {
  }

  // the first to go leaves the top it is placed at
  lemma TopFirst(bm: seq<BootMod>, st: seq<Status>, tried: seq<bool>, lo: nat, top: nat, hi: nat, b: int, j: nat)
    requires Queue(bm, st, tried, lo, top, hi, b) && Chosen(bm, tried, j, lo, top) && bm[j].size <= top
    requires !st[j].Placed?
    requires GoneSet(st, tried) == {}
    ensures GoneFirst(bm, st, tried[j := true], lo, Align(top - bm[j].size), hi, j)
  {
    hide Stays, Victim;
    GoneMore(st, tried, j);
    TopFacts(bm, lo, hi);
    FirstIsGone(bm, st, tried, lo, top, hi);
    forall k | 0 <= k < |bm| && k != j && Inside(bm[k], lo, top) ensures Before(bm, j, k) {
      assert k !in GoneSet(st, tried);
    }
    assert {} + {j} - {j} == {};
    WeightNone(bm, |bm|);
  }

  lemma BothWays(gone: set<nat>, j: nat, g: nat)
    requires g in gone && j !in gone
    ensures gone + {j} - {g} == (gone - {g}) + {j} && j !in gone - {g}
  {
  }

  // each later one takes its words off the top
  lemma TopNext(bm: seq<BootMod>, st: seq<Status>, tried: seq<bool>, lo: nat, top: nat, hi: nat, j: nat, g: nat)
    requires |st| == |tried| == |bm| && lo <= hi && GoneFirst(bm, st, tried, lo, top, hi, g)
    requires j < |bm| && !tried[j] && !st[j].Placed? && bm[j].size <= top
    ensures GoneFirst(bm, st, tried[j := true], lo, Align(top - bm[j].size), hi, g)
  {
    hide Lead, Words, WeightTo;
    var gone := GoneSet(st, tried);
    GoneMore(st, tried, j);
    FirstIsGone(bm, st, tried, lo, top, hi);
    BothWays(gone, j, g);
    WeightMore(bm, gone - {g}, j, |bm|);
    WordsOff(top, bm[j].size);
  }

  // who was first, once the chosen one has gone
  lemma TopStep(bm: seq<BootMod>, st: seq<Status>, tried: seq<bool>, lo: nat, top: nat, hi: nat, b: int, j: nat)
    returns (g: nat)
    requires Queue(bm, st, tried, lo, top, hi, b) && Chosen(bm, tried, j, lo, top) && bm[j].size <= top
    requires !st[j].Placed?
    ensures GoneFirst(bm, st, tried[j := true], lo, Align(top - bm[j].size), hi, g)
    ensures g != j ==> GoneFirst(bm, st, tried, lo, top, hi, g)
  {
    hide Stays, Victim, Tabled, GoneFirst, Gone;
    RangedFacts(bm, st, tried, lo, top, hi, b);
    if GoneSet(st, tried) == {} {
      g := j;
      TopFirst(bm, st, tried, lo, top, hi, b, j);
    } else {
      g :| GoneFirst(bm, st, tried, lo, top, hi, g);
      TopNext(bm, st, tried, lo, top, hi, j, g);
    }
  }

  lemma {:induction false} WeightNone(bm: seq<BootMod>, n: nat)
    requires n <= |bm|
    ensures WeightTo(bm, {}, n) == 0
  {
    if n > 0 {
      WeightNone(bm, n - 1);
    }
  }

  lemma WordsOff(top: nat, size: nat)
    requires top % 4 == 0 && size <= top
    ensures Align(top - size) + Words(size) == top
  {
  }

  // an empty module that top comes down to is one that stays
  lemma StaysNow(bm: seq<BootMod>, st: seq<Status>, tried: seq<bool>, lo: nat, top: nat, hi: nat, b: int, j: nat,
                 i: nat)
    requires Queue(bm, st, tried, lo, top, hi, b) && Chosen(bm, tried, j, lo, top) && bm[j].size <= top
    requires i < |bm| && i != j && i != b && !tried[i] && Inside(bm[i], lo, top)
    requires !Inside(bm[i], lo, Align(top - bm[j].size))
    requires j != b
    ensures Stays(bm, lo, hi, i)
  {
    hide Queue, Filled, Ahead, Weight, Before;
    QueueFacts(bm, st, tried, lo, top, hi, b);
    ChosenFits(bm, st, tried, lo, top, hi, b, j);
    WaitsOn(bm, st, tried, lo, top, hi, b, j, i);
    var g := TopStep(bm, st, tried, lo, top, hi, b, j);
    GoneMore(st, tried, j);
    assert j < i by {
      assert Before(bm, j, i);
      BeforeSame(bm, j, i);
    }
    AheadGone(bm, st, tried, lo, top, hi, b, j, i, g, GoneSet(st, tried) + {j} - {g});
    assert i != g by {
      GoneIsTried(bm, st, tried[j := true], lo, Align(top - bm[j].size), hi, g);
    }
    FilledIs(bm, lo, hi, g, i);
  }

  lemma BeforeSame(bm: seq<BootMod>, j: nat, i: nat)
    requires j < |bm| && i < |bm| && Before(bm, j, i) && bm[i].addr == bm[j].addr
    ensures j < i
  {
  }

  lemma {:induction false} GoneIsTried(bm: seq<BootMod>, st: seq<Status>, tried: seq<bool>, lo: nat, top: nat,
                                       hi: nat, g: nat)
    requires |st| == |tried| == |bm| && lo <= hi && GoneFirst(bm, st, tried, lo, top, hi, g)
    ensures g < |tried| && tried[g] && Lead(bm, lo, TopOf(bm, lo, hi), g) && bm[g].size <= TopOf(bm, lo, hi)
    ensures Align(TopOf(bm, lo, hi) - bm[g].size) == top + Weight(bm, GoneSet(st, tried) - {g})
  {
  }

  lemma {:induction false} FilledIs(bm: seq<BootMod>, lo: nat, hi: nat, g: nat, i: nat)
    requires lo <= hi && Lead(bm, lo, TopOf(bm, lo, hi), g) && i < |bm| && i != g && bm[i].size == 0
    requires bm[g].size <= TopOf(bm, lo, hi)
    requires Align(TopOf(bm, lo, hi) - bm[g].size) == bm[i].addr + Weight(bm, Ahead(bm, lo, hi, g, i))
    ensures Stays(bm, lo, hi, i)
  {
    assert Filled(bm, lo, hi, g, i);
  }

  lemma QueueFacts(bm: seq<BootMod>, st: seq<Status>, tried: seq<bool>, lo: nat, top: nat, hi: nat, b: int)
    requires Queue(bm, st, tried, lo, top, hi, b)
    ensures Ranged(bm, st, tried, lo, top, hi, b)
  {
  }

  // and the chosen one is not
  lemma ChosenGoes(bm: seq<BootMod>, st: seq<Status>, tried: seq<bool>, lo: nat, top: nat, hi: nat, b: int, j: nat)
    requires Queue(bm, st, tried, lo, top, hi, b) && Chosen(bm, tried, j, lo, top) && bm[j].size <= top && j != b
    ensures !Stays(bm, lo, hi, j)
  {
    hide Queue, Ahead, Weight, Before;
    QueueFacts(bm, st, tried, lo, top, hi, b);
    ChosenFits(bm, st, tried, lo, top, hi, b, j);
    TopFacts(bm, lo, hi);
    forall g: nat | Filled(bm, lo, hi, g, j) ensures false {
      var g' := TopStep(bm, st, tried, lo, top, hi, b, j);
      GoneIsTried(bm, st, tried[j := true], lo, Align(top - bm[j].size), hi, g');
      OneLead(bm, lo, TopOf(bm, lo, hi), g, g');
      GoneIsTried(bm, st, tried, lo, top, hi, g);
      AheadGone(bm, st, tried, lo, top, hi, b, j, j, g, GoneSet(st, tried) - {g});
    }
  }

  /** Each move of the first pass keeps its order. */
  lemma QueueStep(bm: seq<BootMod>, st: seq<Status>, tried: seq<bool>, lo: nat, top: nat, hi: nat, b: int, j: nat)
    requires Queue(bm, st, tried, lo, top, hi, b) && Chosen(bm, tried, j, lo, top) && bm[j].size <= top
    ensures Queue(bm, st, tried[j := true], lo, Align(top - bm[j].size), hi, b)
  {
    hide Stays, TopIs, Buried, GoneFirst;
    var d := Align(top - bm[j].size);
    ChosenFits(bm, st, tried, lo, top, hi, b, j);
    GoneMore(st, tried, j);
    if b >= 0 {
      VictimLeft(bm, st, tried, lo, top, hi, b, j);
    }
    forall i | 0 <= i < |bm| && i != j && !tried[i] && i != b && Inside(bm[i], lo, hi)
      ensures Inside(bm[i], lo, d) || Stays(bm, lo, hi, i)
    {
      if Inside(bm[i], lo, top) && !Inside(bm[i], lo, d) {
        StaysNow(bm, st, tried, lo, top, hi, b, j, i);
      }
    }
    ChosenGoes(bm, st, tried, lo, top, hi, b, j);
    TopAfter(bm, st, tried, lo, top, hi, b, j);
  }

  lemma TopAfter(bm: seq<BootMod>, st: seq<Status>, tried: seq<bool>, lo: nat, top: nat, hi: nat, b: int, j: nat)
    requires Queue(bm, st, tried, lo, top, hi, b) && Chosen(bm, tried, j, lo, top) && bm[j].size <= top
    requires !st[j].Placed?
    ensures TopIs(bm, st, tried[j := true], lo, Align(top - bm[j].size), hi)
  {
    var g := TopStep(bm, st, tried, lo, top, hi, b, j);
  }

  lemma {:induction false} StartQueue(bm: seq<BootMod>, st: seq<Status>, tried: seq<bool>, lo: nat, hi: nat, b: int)
    requires Tabled(bm, st, lo, hi) && Victim(bm, lo, hi, b) && |tried| == |bm|
    requires forall i | 0 <= i < |bm| :: tried[i] <==> st[i].Placed?
    ensures Queue(bm, st, tried, lo, TopOf(bm, lo, hi), hi, b)
  {
    TopFacts(bm, lo, hi);
    if b >= 0 {
      BuriedLow(bm, st, lo, hi, b);
    }
    assert GoneSet(st, tried) == {};
    forall i | 0 <= i < |bm| && !tried[i] && i != b && Inside(bm[i], lo, hi)
      ensures Inside(bm[i], lo, TopOf(bm, lo, hi)) || Stays(bm, lo, hi, i)
    {
      CutOff(bm, st, lo, hi, i);
    }
  }

  // nothing that lies whole in the range is cut off by the top, but an empty module where one runs past hi
  lemma {:induction false} CutOff(bm: seq<BootMod>, st: seq<Status>, lo: nat, hi: nat, i: nat)
    requires Tabled(bm, st, lo, hi) && i < |bm| && Inside(bm[i], lo, hi)
    ensures Inside(bm[i], lo, TopOf(bm, lo, hi)) || Stays(bm, lo, hi, i)
  {
    TopFacts(bm, lo, hi);
    if !Inside(bm[i], lo, TopOf(bm, lo, hi)) {
      var k :| 0 <= k < |bm| && Runs(bm[k], lo, hi) && bm[k].addr == TopOf(bm, lo, hi);
      assert Apart(bm[i], bm[k]);
    }
  }

  /** What the first pass moves, of the modules inside the range. */
  lemma QueueDone(bm: seq<BootMod>, st: seq<Status>, tried: seq<bool>, lo: nat, top: nat, hi: nat, b: int, i: nat)
    requires Queue(bm, st, tried, lo, top, hi, b) && i < |bm| && Inside(bm[i], lo, hi)
    requires forall k | 0 <= k < |bm| && !tried[k] :: !Inside(bm[k], lo, top)
    ensures tried[i] <==> !(Buried(bm, lo, hi, i) || Stays(bm, lo, hi, i))
  {
    hide Buried, Stays;
    assert Victim(bm, lo, hi, b);
    if tried[i] {
      assert Gone(st, tried, i);
    }
  }

  // ----- the modules copied over a buried one

  /** f is copied over b: it is inside the range below b, or, with copy, b has no room and f has. */
  ghost predicate Tramples(bm: seq<BootMod>, st: seq<Status>, lo: nat, hi: nat, copy: bool, b: nat, f: nat) {
    && Deep(bm, lo, hi, b)
    && f < |bm| == |st| && f != b && bm[f].size > 0 && !st[f].Placed?
    && (Inside(bm[f], lo, bm[b].addr) || (copy && Crowded(bm[b].size, bm[f].size, lo, Align(hi))))
  }

  // buried, with whole words below the last aligned address
  ghost predicate Deep(bm: seq<BootMod>, lo: nat, hi: nat, b: int) {
    b >= 0 && Buried(bm, lo, hi, b) && bm[b].addr < Align(hi)
  }

  predicate Crowded(size: nat, size': nat, lo: nat, top: nat)
    requires lo <= top
  {
    !Room(size, lo, top) && Room(size', lo, top)
  }

  ghost predicate Trampled(bm: seq<BootMod>, st: seq<Status>, lo: nat, hi: nat, copy: bool) {
    exists b, f :: Tramples(bm, st, lo, hi, copy, b, f)
  }

  // of those copied over b, j goes before k: inside the range the higher one, and of the others those that
  // start below hi, highest first, and then the rest as listed
  ghost predicate Sooner(bm: seq<BootMod>, lo: nat, hi: nat, b: nat, j: nat, k: nat)
    requires b < |bm| && j < |bm| && k < |bm|
  {
    if Inside(bm[j], lo, bm[b].addr) || Inside(bm[k], lo, bm[b].addr) then
      Inside(bm[j], lo, bm[b].addr) && (Inside(bm[k], lo, bm[b].addr) ==> bm[k].addr < bm[j].addr)
    else Later(bm, hi, j, k)
  }

  // the order of the second pass
  predicate Later(bm: seq<BootMod>, hi: nat, j: nat, k: nat)
    requires j < |bm| && k < |bm|
  {
    if bm[j].addr < hi then hi <= bm[k].addr || Before(bm, j, k) else hi <= bm[k].addr && j < k
  }

  /** f is the first to be copied over b. */
  ghost predicate Trampler(bm: seq<BootMod>, st: seq<Status>, lo: nat, hi: nat, copy: bool, b: nat, f: nat) {
    && Tramples(bm, st, lo, hi, copy, b, f)
    && forall k: nat | Tramples(bm, st, lo, hi, copy, b, k) && k != f :: Sooner(bm, lo, hi, b, f, k)
  }

  lemma OneTrampler(bm: seq<BootMod>, st: seq<Status>, lo: nat, hi: nat, copy: bool, b: nat, f: nat, f': nat)
    requires Trampler(bm, st, lo, hi, copy, b, f) && Trampler(bm, st, lo, hi, copy, b, f')
    ensures f' == f
  {
  }

  // no other module with bytes is inside the range below b
  ghost predicate Alone(bm: seq<BootMod>, st: seq<Status>, lo: nat, b: nat)
    requires b < |bm| == |st|
  {
    forall f | 0 <= f < |bm| && f != b && bm[f].size > 0 && !st[f].Placed? :: !Inside(bm[f], lo, bm[b].addr)
  }

  lemma Untrampled(bm: seq<BootMod>, st: seq<Status>, lo: nat, hi: nat, copy: bool, b: int)
    requires Victim(bm, lo, hi, b)
    requires Deep(bm, lo, hi, b) ==>
      |st| == |bm| && Alone(bm, st, lo, b) && (copy ==> Room(bm[b].size, lo, Align(hi)))
    ensures !Trampled(bm, st, lo, hi, copy)
  {
  }

  // While only empty modules have gone, the next one with bytes goes over the victim.
  lemma FirstOver(bm: seq<BootMod>, st: seq<Status>, tried: seq<bool>, lo: nat, top: nat, hi: nat, b: int, j: nat,
                  copy: bool)
    requires Queue(bm, st, tried, lo, top, hi, b) && Chosen(bm, tried, j, lo, top) && bm[j].size > 0
    requires Deep(bm, lo, hi, b) && top <= Align(hi) && forall i: nat | Gone(st, tried, i) :: bm[i].size == 0
    ensures Trampler(bm, st, lo, hi, copy, b, j)
  {
    hide TopIs, Buried, Room;
    BuriedEnd(bm, lo, hi, b);
    assert j != b && Apart(bm[j], bm[b]);
    assert Tramples(bm, st, lo, hi, copy, b, j);
    forall k: nat | Tramples(bm, st, lo, hi, copy, b, k) && k != j ensures Sooner(bm, lo, hi, b, j, k) {
      if Inside(bm[k], lo, bm[b].addr) {
        assert !Gone(st, tried, k);
        assert Inside(bm[k], lo, hi) && Inside(bm[k], lo, top);
        assert Apart(bm[j], bm[k]);
      }
    }
  }

  lemma BuriedEnd(bm: seq<BootMod>, lo: nat, hi: nat, b: nat)
    requires Buried(bm, lo, hi, b)
    ensures b < |bm| && Align(hi) < bm[b].addr + bm[b].size && Inside(bm[b], lo, hi) && bm[b].size > 0
  {
  }

  // When the first pass ends so, the victim is alone.
  lemma AloneThen(bm: seq<BootMod>, st: seq<Status>, tried: seq<bool>, lo: nat, top: nat, hi: nat, b: int)
    requires Queue(bm, st, tried, lo, top, hi, b) && Deep(bm, lo, hi, b)
    requires forall k | 0 <= k < |bm| && !tried[k] :: !Inside(bm[k], lo, top)
    requires forall i: nat | Gone(st, tried, i) :: bm[i].size == 0
    ensures Alone(bm, st, lo, b)
  {
    hide TopIs, Buried;
    BuriedEnd(bm, lo, hi, b);
    forall f | 0 <= f < |bm| && f != b && bm[f].size > 0 && !st[f].Placed? ensures !Inside(bm[f], lo, bm[b].addr) {
      assert !Gone(st, tried, f);
    }
  }

  // In the second pass: the first with bytes that has room goes over a victim that has none.
  lemma SecondOver(bm: seq<BootMod>, st: seq<Status>, lo: nat, hi: nat, b: nat, j: nat)
    requires Deep(bm, lo, hi, b) && |st| == |bm| && Alone(bm, st, lo, b)
    requires j < |bm| && j != b && bm[j].size > 0 && !st[j].Placed? && Crowded(bm[b].size, bm[j].size, lo, Align(hi))
    requires forall k | 0 <= k < |bm| && k != j && k != b && bm[k].size > 0 && !st[k].Placed?
      && Room(bm[k].size, lo, Align(hi)) :: Later(bm, hi, j, k)
    ensures Trampler(bm, st, lo, hi, true, b, j)
  {
  }
}
