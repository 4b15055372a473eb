/**
 The order in which the boot modules are placed, and where: each just below the one before, the first pass
 by its order and the second by its own.
 */
module BootPile {
  import opened BootTable

  // where the first module is placed below, the modules placed, in order, and how many of them by the first pass
  datatype Pile = Pile(from: nat, order: seq<nat>, cut: nat)

  /** Nothing is placed above from: it is the end of the range, or the lowest start of a module not placed
      earlier that starts in the range and runs past its end. */
  ghost predicate Limit(bm: seq<BootMod>, st: seq<Status>, lo: nat, hi: nat, from: nat)
    requires |st| == |bm|
  {
    && (from == hi || exists i :: 0 <= i < |bm| && bm[i].addr == from && Overruns(bm[i], st[i], lo, hi))
    && from <= hi && forall i | 0 <= i < |bm| && Overruns(bm[i], st[i], lo, hi) :: from <= bm[i].addr
  }

  predicate Overruns(b: BootMod, s: Status, lo: nat, hi: nat) {
    s != Placed && lo <= b.addr < hi && hi < b.addr + b.size
  }

  lemma {:induction false} LimitTop(bm: seq<BootMod>, st: seq<Status>, lo: nat, hi: nat)
    requires Tabled(bm, st, lo, hi)
    ensures Limit(bm, st, lo, hi, TopOf(bm, lo, hi))
  {
    TopFacts(bm, lo, hi);
  }

  // the place below which the k-th module goes
  ghost function TopAt(bm: seq<BootMod>, p: Pile, k: nat): nat
    requires k <= |p.order| && InTable(p.order, |bm|)
  {
    if k == 0 then p.from else bm[p.order[k - 1]].addr
  }

  predicate InTable(order: seq<nat>, n: nat) {
    forall k | 0 <= k < |order| :: order[k] < n
  }

  // of the modules as they lie in the end, the k-th is just below the one before
  ghost predicate Below(bm: seq<BootMod>, p: Pile, k: nat)
    requires k < |p.order| && InTable(p.order, |bm|)
  {
    var b := bm[p.order[k]];
    b.size <= TopAt(bm, p, k) && b.addr == Align(TopAt(bm, p, k) - b.size)
  }

  /** The modules placed are those of the pile, each once; top is where the last one lies. */
  ghost predicate Stacked(st0: seq<Status>, bm: seq<BootMod>, st: seq<Status>, p: Pile, top: nat) {
    && |st0| == |st| == |bm| && InTable(p.order, |bm|) && p.cut <= |p.order|
    && (forall i: nat :: i in p.order <==> i < |st| && st0[i] != Placed && st[i] == Placed)
    && (forall k, l | 0 <= k < l < |p.order| :: p.order[k] != p.order[l])
    && (forall k | 0 <= k < |p.order| :: Below(bm, p, k))
    && top == TopAt(bm, p, |p.order|)
  }

  /** The first cut modules went highest first, the first listed of those at one start; the others so if they
      start below hi, and then as listed. */
  ghost predicate Ordered(bm0: seq<BootMod>, p: Pile, hi: nat) {
    && InTable(p.order, |bm0|) && p.cut <= |p.order|
    && (forall k, l | 0 <= k < l < p.cut :: Before(bm0, p.order[k], p.order[l]))
    && forall k, l | p.cut <= k < l < |p.order| :: Later(bm0, hi, p.order[k], p.order[l])
  }

  /** Module i had no room when its turn of the second pass came, after the first k. */
  ghost predicate Missed(bm0: seq<BootMod>, bm: seq<BootMod>, p: Pile, lo: nat, hi: nat, i: nat, k: nat)
    requires InTable(p.order, |bm|) && |bm| == |bm0| && i < |bm|
  {
    && p.cut <= k <= |p.order|
    && (forall l | p.cut <= l < k :: Later(bm0, hi, p.order[l], i))
    && (forall l | k <= l < |p.order| :: Later(bm0, hi, i, p.order[l]))
    && lo <= TopAt(bm, p, k) && !Room(bm0[i].size, lo, TopAt(bm, p, k))
  }

  lemma StackedNone(bm: seq<BootMod>, st: seq<Status>, from: nat)
    requires |st| == |bm|
    ensures Stacked(st, bm, st, Pile(from, [], 0), from)
  {
  }

  // one more module is placed
  lemma StackedOn(st0: seq<Status>, bm: seq<BootMod>, st: seq<Status>, p: Pile, top: nat, j: nat, d: nat,
                  bm': seq<BootMod>, st': seq<Status>, p': Pile)
    requires Stacked(st0, bm, st, p, top) && j < |bm| && st0[j] != Placed && st[j] != Placed
    requires bm[j].size <= top && d == Align(top - bm[j].size)
    requires bm' == bm[j := BootMod(d, bm[j].size)] && st' == st[j := Placed]
    requires p' == p.(order := p.order + [j], cut := p'.cut) && p'.cut <= |p.order| + 1
    ensures Stacked(st0, bm', st', p', d)
  {
    forall k | 0 <= k <= |p.order| ensures TopAt(bm', p', k) == TopAt(bm, p, k) {
      if k > 0 {
        assert p'.order[k - 1] == p.order[k - 1];
      }
    }
    forall k | 0 <= k < |p'.order| ensures Below(bm', p', k) {
      assert k < |p.order| ==> Below(bm, p, k);
    }
    forall i: nat ensures i in p'.order <==> i < |st'| && st0[i] != Placed && st'[i] == Placed {
      assert i in p'.order <==> i in p.order || i == j;
    }
  }

  lemma StackedRefused(st0: seq<Status>, bm: seq<BootMod>, st: seq<Status>, p: Pile, top: nat, j: nat)
    requires Stacked(st0, bm, st, p, top) && j < |bm| && st[j] != Placed
    ensures Stacked(st0, bm, st[j := NoRoom], p, top)
  {
  }

  // ----- the first pass

  // all so far went by the order of the first pass, before those that wait
  ghost predicate Piling(bm0: seq<BootMod>, tried: seq<bool>, p: Pile, lo: nat, top: nat, hi: nat) {
    && |tried| == |bm0| && InTable(p.order, |bm0|) && p.cut == |p.order|
    && (forall k | 0 <= k < |p.order| :: tried[p.order[k]] && Inside(bm0[p.order[k]], lo, hi))
    && (forall k, l | 0 <= k < l < |p.order| :: Before(bm0, p.order[k], p.order[l]))
    && forall k, i | 0 <= k < |p.order| && 0 <= i < |tried| && !tried[i] && Inside(bm0[i], lo, top) ::
         Before(bm0, p.order[k], i)
  }

  lemma PilingStep(bm0: seq<BootMod>, tried: seq<bool>, p: Pile, lo: nat, top: nat, top': nat, hi: nat, j: nat)
    requires Piling(bm0, tried, p, lo, top, hi) && Chosen(bm0, tried, j, lo, top) && top' <= top <= hi
    ensures Piling(bm0, tried[j := true], Pile(p.from, p.order + [j], |p.order| + 1), lo, top', hi)
  {
  }

  lemma PilingNone(bm0: seq<BootMod>, tried: seq<bool>, from: nat, lo: nat, top: nat, hi: nat)
    requires |tried| == |bm0|
    ensures Piling(bm0, tried, Pile(from, [], 0), lo, top, hi)
  {
  }

  // ----- the second pass

  // the second pass leaves what the first has piled up
  predicate Follows(p0: Pile, p: Pile) {
    p.from == p0.from && p.cut == p0.cut <= |p.order| && p0.cut <= |p0.order| && p.order[..p.cut] == p0.order[..p.cut]
  }

  lemma PileCut(st0: seq<Status>, bm: seq<BootMod>, st: seq<Status>, p: Pile, top: nat)
    requires Stacked(st0, bm, st, p, top)
    ensures InTable(p.order, |bm|) && p.cut <= |p.order| && top == TopAt(bm, p, |p.order|)
  {
  }

  // in the end every module is placed or had no room when its turn came
  lemma RestingEnd(bm0: seq<BootMod>, bm: seq<BootMod>, st: seq<Status>, tried: seq<bool>, p: Pile, lo: nat, hi: nat)
    requires Resting(bm0, bm, st, tried, p, lo, hi)
    ensures Ordered(bm0, p, hi) && InTable(p.order, |bm|) && |st| == |tried| == |bm0| == |bm|
    ensures forall i | 0 <= i < |tried| && tried[i] && st[i] != Placed ::
      exists k :: Missed(bm0, bm, p, lo, hi, i, k)
  {
    hide Missed;
    forall i | 0 <= i < |tried| && tried[i] && st[i] != Placed ensures exists k :: Missed(bm0, bm, p, lo, hi, i, k) {
      assert Passed(bm0, bm, tried, p, lo, hi, i);
    }
  }

  // what was tried in the second pass, i, went before all that wait, and if it was not placed it had no room
  ghost predicate Resting(bm0: seq<BootMod>, bm: seq<BootMod>, st: seq<Status>, tried: seq<bool>, p: Pile, lo: nat,
                          hi: nat) {
    && |tried| == |bm0| == |bm| == |st| && Ordered(bm0, p, hi)
    && (forall l, u | p.cut <= l < |p.order| && 0 <= u < |tried| && !tried[u] :: Later(bm0, hi, p.order[l], u))
    && (forall k | 0 <= k < |p.order| :: tried[p.order[k]])
    && forall i | 0 <= i < |tried| && tried[i] && st[i] != Placed :: Passed(bm0, bm, tried, p, lo, hi, i)
  }

  ghost predicate Passed(bm0: seq<BootMod>, bm: seq<BootMod>, tried: seq<bool>, p: Pile, lo: nat, hi: nat, i: nat)
    requires InTable(p.order, |bm|) && i < |bm| == |bm0| == |tried|
  {
    && (forall u | 0 <= u < |tried| && !tried[u] :: Later(bm0, hi, i, u))
    && exists k :: Missed(bm0, bm, p, lo, hi, i, k)
  }

  // j goes before all others that wait
  ghost predicate Turn(bm0: seq<BootMod>, tried: seq<bool>, hi: nat, j: nat)
    requires |tried| == |bm0|
  {
    j < |tried| && !tried[j] && forall u | 0 <= u < |tried| && u != j && !tried[u] :: Later(bm0, hi, j, u)
  }

  lemma RestingFirst(bm0: seq<BootMod>, bm: seq<BootMod>, st: seq<Status>, tried: seq<bool>, p: Pile, lo: nat,
                     top: nat, hi: nat)
    requires Piling(bm0, tried, p, lo, top, hi) && |bm| == |st| == |bm0|
    requires forall i | 0 <= i < |tried| && tried[i] :: st[i] == Placed
    ensures Resting(bm0, bm, st, tried, p, lo, hi)
  {
  }

  lemma RestingPlaced(bm0: seq<BootMod>, bm: seq<BootMod>, st: seq<Status>, tried: seq<bool>, p: Pile, lo: nat,
                      hi: nat, j: nat, d: nat)
    requires Resting(bm0, bm, st, tried, p, lo, hi) && Turn(bm0, tried, hi, j)
    ensures Resting(bm0, bm[j := BootMod(d, bm[j].size)], st[j := Placed], tried[j := true],
                    p.(order := p.order + [j]), lo, hi)
  {
    var bm', p', tried' := bm[j := BootMod(d, bm[j].size)], p.(order := p.order + [j]), tried[j := true];
    forall i | 0 <= i < |tried| && i != j && tried[i] && st[i] != Placed
      ensures Passed(bm0, bm', tried', p', lo, hi, i)
    {
      assert Passed(bm0, bm, tried, p, lo, hi, i);
      var k :| Missed(bm0, bm, p, lo, hi, i, k);
      assert TopAt(bm', p', k) == TopAt(bm, p, k);
      assert Missed(bm0, bm', p', lo, hi, i, k);
    }
  }

  lemma RestingRefused(bm0: seq<BootMod>, bm: seq<BootMod>, st: seq<Status>, tried: seq<bool>, p: Pile, lo: nat,
                       top: nat, hi: nat, j: nat)
    requires Resting(bm0, bm, st, tried, p, lo, hi) && Turn(bm0, tried, hi, j)
    requires lo <= top == TopAt(bm, p, |p.order|) && !Room(bm0[j].size, lo, top)
    ensures Resting(bm0, bm, st[j := NoRoom], tried[j := true], p, lo, hi)
  {
    var tried' := tried[j := true];
    assert Missed(bm0, bm, p, lo, hi, j, |p.order|);
    forall i | 0 <= i < |tried| && i != j && tried[i] && st[i] != Placed
      ensures Passed(bm0, bm, tried', p, lo, hi, i)
    {
      assert Passed(bm0, bm, tried, p, lo, hi, i);
    }
  }
}
