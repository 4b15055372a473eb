/**
 Module records as values: the heap of records, the counts, the invariants the
 module core keeps over them, and what a load adds to them.
 */
module ModRecords {
  import opened CandList

  const MAXDEPTH := 8

  datatype Errno =
    | ENOSYS | ENAMETOOLONG | EINVAL | ENOENT | EBUSY | EINTR | ENOMEM | ERELOC | EBADVER | Entry(code: int)

  // one step of a load: done, failed, or left by a longjmp
  datatype Outcome = Done | Err(e: Errno) | Intr

  // everything dlm_load learns about the file at one path
  datatype File = File(
    find: Outcome,            // lf_find
    hdr: Outcome,             // dlm_ld_hdr, dlm_ld_moddata
    depsOk: bool,             // no dependency name is too long
    deps: seq<string>,        // the names in the type-13 section
    image: Outcome,           // symbols, image, relocation
    wrap: Outcome,            // wrapper and linkage array checks
    entry: Outcome,           // the load entry
    install: seq<Outcome>,    // one linkage each
    undo: Outcome)            // the unload entry, called when the load is undone after the load entry

  // credentials and root directory of the process
  datatype Creds = System | User(cred: int, root: int)

  datatype Mod = Mod(
    name: string, path: string, id: nat,
    loading: bool, unloading: bool, demand: bool, locked: bool, symok: bool,
    refs: nat, deps: nat, incall: nat, fsbusy: bool,
    dep: seq<Ptr>, nlink: nat)

  // a record as a load enters it
  function Blank(name: string, id: nat): Mod {
    Mod(name, "", id, true, false, false, false, false, 0, 0, 0, false, [], 0)
  }

  // the modules built in, and whether every module loaded is locked
  datatype Kernel = Kernel(statics: set<string>, prflock: bool)

  // a load in progress: struct dlm_lf; loaded is the stage LF_LOADED
  datatype Frame = Frame(mod: Ptr, swapped: bool, saved: Creds, loaded: bool)

  datatype LoadResult = Loaded(m: Ptr) | Failed(e: Errno) | Interrupted

  datatype UnloadResult = Unloaded | Refused(e: Errno) | UnloadInterrupted | Panic

  type Mods = map<Ptr, Mod>

  // what can happen to the core, from outside
  datatype Op =
    | OpLoad(path: string, files: map<string, File>)
    | OpUnload(id: nat, entry: Outcome, relinkOk: bool)
    | OpUnloadAll(answers: seq<Outcome>, relinkOk: bool)
    | OpHold(m: Ptr)
    | OpRele(m: Ptr)
    | OpCall(m: Ptr, incall: nat)

  function LastComp(path: string): string {
    if '/' in path then LastComp(path[1..]) else path
  }

  /** It is what follows the last slash. */
  lemma {:induction false} LastCompIs(path: string)
    ensures '/' !in LastComp(path) && |LastComp(path)| <= |path|
    ensures var n := |path| - |LastComp(path)|;
      path[n..] == LastComp(path) && (n > 0 ==> path[n - 1] == '/')
  {
    if '/' in path {
      LastCompIs(path[1..]);
    }
  }

  lemma {:induction false} Bound(s: set<Ptr>) returns (b: Ptr)
    ensures b > 0 && forall p | p in s :: p < b
  {
    if s == {} {
      b := 1;
    } else {
      var p :| p in s;
      b := Bound(s - {p});
      assert forall q | q in s :: q == p || q in s - {p};
      b := if p < b then b else p + 1;
    }
  }

  predicate Busy(m: Mod) {
    m.refs > 0 || m.deps > 0 || m.incall > 0 || m.locked || m.loading || m.unloading || m.fsbusy
  }

  ghost predicate HasId(mods: Mods, id: nat) {
    exists p :: p in mods && mods[p].id == id
  }

  // the first listed record of that id is at index i
  ghost predicate FirstId(list: seq<Ptr>, mods: Mods, id: nat, i: nat) {
    && i < |list| && list[i] in mods && mods[list[i]].id == id
    && forall j | 0 <= j < i :: list[j] in mods && mods[list[j]].id != id
  }

  // ----- dependency counts

  ghost function Count(dep: seq<Ptr>, p: Ptr): nat {
    if dep == [] then 0 else (if dep[0] == p then 1 else 0) + Count(dep[1..], p)
  }

  lemma {:induction false} CountConcat(a: seq<Ptr>, b: seq<Ptr>, p: Ptr)
    ensures Count(a + b, p) == Count(a, p) + Count(b, p)
  {
    if a == [] {
      assert a + b == b;
    } else {
      assert (a + b)[1..] == a[1..] + b;
      CountConcat(a[1..], b, p);
    }
  }

  lemma {:induction false} CountIn(dep: seq<Ptr>, p: Ptr)
    ensures Count(dep, p) > 0 <==> p in dep
  {
    if dep != [] {
      CountIn(dep[1..], p);
    }
  }

  // how many dependency entries of the listed records name p
  ghost function Naming(list: seq<Ptr>, mods: Mods, p: Ptr): nat
    requires forall q | q in list :: q in mods
  {
    if list == [] then 0 else Count(mods[list[0]].dep, p) + Naming(list[1..], mods, p)
  }

  lemma {:induction false} NamingConcat(a: seq<Ptr>, b: seq<Ptr>, mods: Mods, p: Ptr)
    requires forall q | q in a + b :: q in mods
    ensures (forall q | q in a :: q in mods) && forall q | q in b :: q in mods
    ensures Naming(a + b, mods, p) == Naming(a, mods, p) + Naming(b, mods, p)
  {
    assert forall q | q in a :: q in a + b;
    assert forall q | q in b :: q in a + b;
    if a == [] {
      assert a + b == b;
    } else {
      assert (a + b)[0] == a[0] && (a + b)[1..] == a[1..] + b;
      NamingConcat(a[1..], b, mods, p);
    }
  }

  lemma {:induction false} NamingFrame(list: seq<Ptr>, mods: Mods, mods': Mods, p: Ptr)
    requires forall q | q in list :: q in mods && q in mods' && mods[q].dep == mods'[q].dep
    ensures Naming(list, mods, p) == Naming(list, mods', p)
  {
    if list != [] {
      NamingFrame(list[1..], mods, mods', p);
    }
  }

  lemma {:induction false} NamingHas(list: seq<Ptr>, mods: Mods, q: Ptr, p: Ptr)
    requires forall r | r in list :: r in mods
    requires q in list && p in mods[q].dep
    ensures Naming(list, mods, p) > 0
  {
    if q == list[0] {
      CountIn(mods[q].dep, p);
    } else {
      NamingHas(list[1..], mods, q, p);
    }
  }

  lemma {:induction false} NamingFrom(list: seq<Ptr>, mods: Mods, p: Ptr) returns (q: Ptr)
    requires forall r | r in list :: r in mods
    requires Naming(list, mods, p) > 0
    ensures q in list && p in mods[q].dep
  {
    CountIn(mods[list[0]].dep, p);
    if p in mods[list[0]].dep {
      q := list[0];
    } else {
      q := NamingFrom(list[1..], mods, p);
    }
  }

  // taking one record out of the list takes its entries out of the count
  lemma {:induction false} NamingWithout(list: seq<Ptr>, mods: Mods, m: Ptr, p: Ptr)
    requires Distinct(list) && m in list && forall q | q in list :: q in mods
    ensures forall q | q in Without(list, m) :: q in mods
    ensures Naming(list, mods, p) == Naming(Without(list, m), mods, p) + Count(mods[m].dep, p)
  {
    if list[0] != m {
      NamingWithout(list[1..], mods, m, p);
      var w := Without(list[1..], m);
      assert Without(list, m) == [list[0]] + w && ([list[0]] + w)[1..] == w;
    }
  }

  // each count is what the other records' entries and the record's own entries make of it
  lemma {:induction false} CountedSplit(list: seq<Ptr>, mods: Mods, m: Ptr)
    requires Listed(list, mods) && Counted(list, mods) && DepsSettled(mods) && m in mods
    ensures forall i | 0 <= i < |mods[m].dep| :: mods[m].dep[i] in mods
    ensures Owing(mods, mods, Without(list, m), mods[m].dep)
  {
    forall p | p in mods
      ensures (forall q | q in Without(list, m) :: q in mods)
           && mods[p].deps == Naming(Without(list, m), mods, p) + Count(mods[m].dep, p)
    {
      NamingWithout(list, mods, m, p);
    }
  }

  // each record's count is what the records of rest and the entries still to give back make of it
  ghost predicate Owing(mods0: Mods, mods: Mods, rest: seq<Ptr>, left: seq<Ptr>) {
    && (forall q | q in rest :: q in mods0)
    && mods.Keys == mods0.Keys
    && forall p | p in mods0 :: mods[p] == mods0[p].(deps := Naming(rest, mods0, p) + Count(left, p))
  }

  lemma OwingStep(mods0: Mods, mods: Mods, rest: seq<Ptr>, left: seq<Ptr>)
    requires Owing(mods0, mods, rest, left) && left != [] && left[0] in mods
    ensures mods[left[0]].deps > 0
    ensures Owing(mods0, mods[left[0] := mods[left[0]].(deps := mods[left[0]].deps - 1)], rest, left[1..])
  {
  }

  lemma {:induction false} FreedListed(list: seq<Ptr>, mods: Mods, mods': Mods, m: Ptr)
    requires Listed(list, mods) && m in mods
    requires Owing(mods, mods', Without(list, m), [])
    ensures Listed(Without(list, m), mods' - {m}) && Counted(Without(list, m), mods' - {m})
    ensures Kept(mods, mods' - {m}, m)
  {
    var k := WithoutDistinct(list, m);
    var mods' := mods' - {m};
    forall p | p in mods' ensures mods'[p].deps == Naming(Without(list, m), mods', p) {
      NamingFrame(Without(list, m), mods, mods', p);
    }
  }

  lemma {:induction false} WithoutKeepsPrefix(s: seq<Ptr>, t: seq<Ptr>, m: Ptr)
    requires s <= t && Distinct(t) && m in t && m !in s
    ensures s <= Without(t, m)
  {
    var k := WithoutDistinct(t, m);
    assert forall i | 0 <= i < |s| :: s[i] == t[i] && s[i] != m;
  }

  // ----- invariants, on values

  // dlm_list holds each live record once
  ghost predicate Listed(list: seq<Ptr>, mods: Mods) {
    Distinct(list) && NULL !in mods && forall p :: p in list <==> p in mods
  }

  // m_deps is the number of m_dep entries naming the record
  ghost predicate Counted(list: seq<Ptr>, mods: Mods)
    requires Listed(list, mods)
  {
    forall p | p in mods :: mods[p].deps == Naming(list, mods, p)
  }

  // no m_dep entry names a freed record, or one still loading
  ghost predicate DepsSettled(mods: Mods) {
    forall p, d | p in mods && d in mods[p].dep :: d in mods && !mods[d].loading
  }

  // rank is a settling time: every dependency settled before its dependent
  ghost predicate Ranked(mods: Mods, rank: map<Ptr, nat>, clock: nat) {
    && (forall p | p in mods && !mods[p].loading :: p in rank && rank[p] < clock)
    && forall p, d | p in mods && d in mods[p].dep && !mods[p].loading && p in rank && d in rank :: rank[d] < rank[p]
  }

  // each record of the path has an entry naming the next
  ghost predicate Walk(mods: Mods, path: seq<Ptr>) {
    |path| > 1 ==> path[0] in mods && path[1] in mods[path[0]].dep && Walk(mods, path[1..])
  }

  // so no chain of dependency entries leads back to where it began
  lemma {:induction false} NoCycle(mods: Mods, rank: map<Ptr, nat>, clock: nat, path: seq<Ptr>)
    requires DepsSettled(mods) && Ranked(mods, rank, clock)
    requires |path| > 1 && Walk(mods, path) && !mods[path[0]].loading
    ensures var last := path[|path|-1];
      last in rank && path[0] in rank && rank[last] < rank[path[0]] && last != path[0]
  {
    assert path[1] in mods[path[0]].dep;
    if |path| > 2 {
      NoCycle(mods, rank, clock, path[1..]);
    }
  }

  // the loading records are those of the guard's frames, each once
  ghost predicate Framed(mods: Mods, frames: seq<Frame>) {
    && (forall i | 0 <= i < |frames| :: frames[i].mod in mods && mods[frames[i].mod].loading)
    && (forall i, j | 0 <= i < j < |frames| :: frames[i].mod != frames[j].mod)
    && forall p | p in mods && mods[p].loading :: exists i :: 0 <= i < |frames| && frames[i].mod == p
  }

  // the installed linkages are the first m_nlink of each record
  ghost predicate Installed(mods: Mods, links: set<(Ptr, nat)>) {
    forall p: Ptr, i: nat :: (p, i) in links <==> p in mods && i < mods[p].nlink
  }

  lemma FreedInstalled(mods0: Mods, mid: Mods, mods: Mods, m: Ptr, links: set<(Ptr, nat)>)
    requires Installed(mid, links) && m in mods0 && m in mid && mid == mods0[m := mid[m]] && mid[m].nlink == 0
    requires mods.Keys == mid.Keys - {m} && Kept(mid, mods, m)
    ensures Installed(mods, links) && Kept(mods0, mods, m)
  {
  }

  lemma InstalledFrame(mods: Mods, mods': Mods, links: set<(Ptr, nat)>, m: Ptr)
    requires Installed(mods, links) && m in mods && m in mods' && mods' == mods[m := mods'[m]]
    requires mods'[m].nlink == mods[m].nlink
    ensures Installed(mods', links)
  {
  }

  lemma InstalledUnique(mods: Mods, links: set<(Ptr, nat)>, links': set<(Ptr, nat)>)
    requires Installed(mods, links) && Installed(mods, links')
    ensures links == links'
  {
    forall x ensures x in links <==> x in links' {
      assert x == (x.0, x.1);
    }
  }

  lemma UnlinkedKeeps(list: seq<Ptr>, mods: Mods, mods': Mods, m: Ptr, rank: map<Ptr, nat>, clock: nat, cs: seq<Ptr>)
    requires Listed(list, mods) && Counted(list, mods) && DepsSettled(mods) && Ranked(mods, rank, clock)
    requires Idle(cs, mods) && m in mods && mods' == mods[m := mods[m].(nlink := 0)]
    ensures Listed(list, mods') && Counted(list, mods') && DepsSettled(mods') && Ranked(mods', rank, clock)
    ensures Idle(cs, mods')
  {
    hide Listed, Counted, DepsSettled, Ranked;
    ShapeKeepsCounted(list, mods, mods');
    ShapeKeepsDeps(mods, mods', rank, clock);
  }

  lemma FreedFramed(mods: Mods, mods': Mods, frames: seq<Frame>, m: Ptr)
    requires Framed(mods, frames) && m in mods && !mods[m].loading
    requires mods'.Keys == mods.Keys - {m}
    requires forall p | p in mods' :: mods'[p].loading == mods[p].loading
    ensures Framed(mods', frames)
  {
  }

  lemma FreedKept(mods0: Mods, mid: Mods, mods: Mods, m: Ptr)
    requires m in mods0 && m in mid && mid == mods0[m := mid[m]] && Kept(mid, mods, m)
    ensures Kept(mods0, mods, m)
  {
  }

  lemma InstalledStep(mods: Mods, links: set<(Ptr, nat)>, m: Ptr, i: nat)
    requires Installed(mods, links) && m in mods && mods[m].nlink == i
    ensures Installed(mods[m := mods[m].(nlink := i + 1)], links + {(m, i)})
  {
  }

  // a candidate is held by nobody and needed by nobody
  ghost predicate Idle(cs: seq<Ptr>, mods: Mods) {
    forall p | p in cs :: p in mods && mods[p].refs == 0 && mods[p].deps == 0
  }

  // no id is given twice: each record has the id that was given to it, and the next one is above all
  ghost predicate Numbered(mods: Mods, owner: map<nat, Ptr>, nextid: nat) {
    && (forall p | p in mods :: mods[p].id in owner && owner[mods[p].id] == p)
    && forall k | k in owner :: k < nextid
  }

  lemma SameIds(mods: Mods, mods': Mods, owner: map<nat, Ptr>, nextid: nat)
    requires Numbered(mods, owner, nextid) && forall p | p in mods' :: p in mods && mods'[p].id == mods[p].id
    ensures Numbered(mods', owner, nextid)
  {
  }

  lemma FreedIds(mods: Mods, mods': Mods, m: Ptr, owner: map<nat, Ptr>, nextid: nat)
    requires Numbered(mods, owner, nextid) && mods'.Keys == mods.Keys - {m} && Kept(mods, mods', m)
    ensures Numbered(mods', owner, nextid)
  {
  }

  lemma NewId(cs: seq<Ptr>, mods: Mods, m: Ptr, r: Mod, owner: map<nat, Ptr>, nextid: nat)
    requires Numbered(mods, owner, nextid) && Idle(cs, mods) && m !in mods && r.id == nextid
    ensures Numbered(mods[m := r], owner[nextid := m], nextid + 1) && Idle(cs, mods[m := r])
  {
  }

  lemma SettledId(cs: seq<Ptr>, mods: Mods, mods': Mods, m: Ptr, owner: map<nat, Ptr>, nextid: nat)
    requires Numbered(mods, owner, nextid) && Idle(cs, mods) && OnlyOwn(mods, mods', m)
    requires mods'[m] == mods[m].(loading := false, demand := mods'[m].demand)
    ensures Numbered(mods', owner, nextid) && Idle(cs, mods')
  {
  }

  // no other record has that id
  ghost predicate OnlyId(mods: Mods, id: nat, m: Ptr) {
    forall p | p in mods && mods[p].id == id :: p == m
  }

  lemma OneId(mods: Mods, owner: map<nat, Ptr>, nextid: nat, id: nat, m: Ptr)
    requires Numbered(mods, owner, nextid) && m in mods && mods[m].id == id
    ensures OnlyId(mods, id, m)
  {
  }

  // everything about the records that does not concern the candidate list
  ghost predicate Sound(list: seq<Ptr>, mods: Mods, rank: map<Ptr, nat>, clock: nat,
                        frames: seq<Frame>, links: set<(Ptr, nat)>) {
    && Listed(list, mods) && Counted(list, mods)
    && DepsSettled(mods) && Ranked(mods, rank, clock)
    && Framed(mods, frames) && Installed(mods, links)
  }

  // the two heaps agree on dependencies, and on which records are loading
  ghost predicate SameDeps(mods: Mods, mods': Mods) {
    mods'.Keys == mods.Keys && forall p | p in mods ::
      mods'[p].dep == mods[p].dep && mods'[p].deps == mods[p].deps && mods'[p].loading == mods[p].loading
  }

  // ... and on the linkages: all that Sound mentions
  ghost predicate SameShape(mods: Mods, mods': Mods) {
    SameDeps(mods, mods') && forall p | p in mods :: mods'[p].nlink == mods[p].nlink
  }

  lemma ShapeKeepsSound(list: seq<Ptr>, mods: Mods, mods': Mods, rank: map<Ptr, nat>, clock: nat,
                        frames: seq<Frame>, links: set<(Ptr, nat)>)
    requires Sound(list, mods, rank, clock, frames, links) && SameShape(mods, mods')
    ensures Sound(list, mods', rank, clock, frames, links)
  {
    hide Listed, Counted, DepsSettled, Ranked, Framed;
    LinksKeepSound(list, mods, mods', rank, clock, frames, links, links);
  }

  lemma LinksKeepSound(list: seq<Ptr>, mods: Mods, mods': Mods, rank: map<Ptr, nat>, clock: nat,
                       frames: seq<Frame>, links: set<(Ptr, nat)>, links': set<(Ptr, nat)>)
    requires Sound(list, mods, rank, clock, frames, links) && SameDeps(mods, mods') && Installed(mods', links')
    ensures Sound(list, mods', rank, clock, frames, links')
  {
    hide Listed, Counted, DepsSettled, Ranked, Installed;
    ShapeKeepsCounted(list, mods, mods');
    ShapeKeepsDeps(mods, mods', rank, clock);
  }

  lemma ShapeKeepsCounted(list: seq<Ptr>, mods: Mods, mods': Mods)
    requires Listed(list, mods) && Counted(list, mods) && SameDeps(mods, mods')
    ensures Listed(list, mods') && Counted(list, mods')
  {
    forall p | p in mods ensures Naming(list, mods, p) == Naming(list, mods', p) {
      NamingFrame(list, mods, mods', p);
    }
  }

  lemma ShapeKeepsDeps(mods: Mods, mods': Mods, rank: map<Ptr, nat>, clock: nat)
    requires DepsSettled(mods) && Ranked(mods, rank, clock) && SameDeps(mods, mods')
    ensures DepsSettled(mods') && Ranked(mods', rank, clock)
  {
  }

  // a record no count speaks for is named nowhere, and goes without leaving a dangling entry
  lemma FreedKeepsDeps(list: seq<Ptr>, mods: Mods, mods': Mods, rank: map<Ptr, nat>, clock: nat, m: Ptr)
    requires Listed(list, mods) && Counted(list, mods) && DepsSettled(mods) && Ranked(mods, rank, clock)
    requires m in mods && mods[m].deps == 0
    requires mods'.Keys == mods.Keys - {m} && Kept(mods, mods', m)
    ensures DepsSettled(mods') && Ranked(mods', rank, clock)
  {
    forall p, d | p in mods' && d in mods'[p].dep ensures d in mods[p].dep && d != m {
      if d == m {
        NamingHas(list, mods, p, m);
      }
    }
  }

  // nothing depends on a record that is still loading
  lemma LoadingUnnamed(list: seq<Ptr>, mods: Mods, m: Ptr)
    requires Listed(list, mods) && Counted(list, mods) && DepsSettled(mods)
    requires m in mods && mods[m].loading
    ensures mods[m].deps == 0
  {
    if mods[m].deps > 0 {
      var q := NamingFrom(list, mods, m);
    }
  }

  // a fresh record at the end of the list, with a frame of its own
  lemma BeginSound(list: seq<Ptr>, mods: Mods, rank: map<Ptr, nat>, clock: nat,
                   frames: seq<Frame>, links: set<(Ptr, nat)>, m: Ptr, r: Mod, f: Frame)
    requires Sound(list, mods, rank, clock, frames, links)
    requires m != NULL && m !in mods && r.loading && r.deps == 0 && r.dep == [] && r.nlink == 0 && f.mod == m
    ensures Sound(list + [m], mods[m := r], rank, clock, [f] + frames, links)
  {
    hide Listed, Counted, DepsSettled, Ranked, Framed;
    BeginCounted(list, mods, m, r);
    BeginDeps(list, mods, rank, clock, m, r);
    assert ([f] + frames)[1..] == frames;
    BeginFramed(mods, mods[m := r], frames, [f] + frames, m);
  }

  lemma BeginCounted(list: seq<Ptr>, mods: Mods, m: Ptr, r: Mod)
    requires Listed(list, mods) && Counted(list, mods) && DepsSettled(mods)
    requires m != NULL && m !in mods && r.deps == 0 && r.dep == []
    ensures Listed(list + [m], mods[m := r]) && Counted(list + [m], mods[m := r])
  {
    var mods', list' := mods[m := r], list + [m];
    assert Listed(list', mods');
    forall p | p in mods' ensures mods'[p].deps == Naming(list', mods', p) {
      NamingConcat(list, [m], mods', p);
      NamingFrame(list, mods, mods', p);
      if p == m && Naming(list, mods, m) > 0 {
        var q := NamingFrom(list, mods, m);
      }
    }
  }

  lemma BeginDeps(list: seq<Ptr>, mods: Mods, rank: map<Ptr, nat>, clock: nat, m: Ptr, r: Mod)
    requires Listed(list, mods) && DepsSettled(mods) && Ranked(mods, rank, clock)
    requires m !in mods && r.loading && r.dep == []
    ensures DepsSettled(mods[m := r]) && Ranked(mods[m := r], rank, clock)
  {
  }

  lemma BeginFramed(mods: Mods, mods': Mods, frames: seq<Frame>, frames': seq<Frame>, m: Ptr)
    requires Framed(mods, frames) && m !in mods && m in mods' && mods' == mods[m := mods'[m]] && mods'[m].loading
    requires |frames'| == |frames| + 1 && frames'[0].mod == m && frames'[1..] == frames
    ensures Framed(mods', frames')
  {
  }

  // the innermost frame goes, and with it its record's loading mark or the record itself
  lemma PopFramed(mods: Mods, mods': Mods, frames: seq<Frame>)
    requires Framed(mods, frames) && frames != []
    requires forall p | p in mods && p != frames[0].mod :: p in mods' && mods'[p].loading == mods[p].loading
    requires forall p | p in mods' && mods'[p].loading :: p in mods && p != frames[0].mod
    ensures Framed(mods', frames[1..])
  {
  }

  lemma GoneFramed(mods: Mods, mods': Mods, fs: seq<Frame>)
    requires Framed(mods, fs) && fs != [] && fs[0].mod in mods
    requires mods'.Keys == mods.Keys - {fs[0].mod} && Kept(mods, mods', fs[0].mod)
    ensures Framed(mods', fs[1..])
  {
    PopFramed(mods, mods', fs);
  }

  // mods' is mods with the entry d added to m, and d's count up by one
  ghost predicate Depends(mods: Mods, mods': Mods, m: Ptr, d: Ptr) {
    && m in mods && mods[m].loading && d in mods && !mods[d].loading
    && mods' == mods[d := mods[d].(deps := mods[d].deps + 1)][m := mods[m].(dep := mods[m].dep + [d])]
  }

  lemma DependCounted(list: seq<Ptr>, mods: Mods, m: Ptr, d: Ptr, mods': Mods)
    requires Listed(list, mods) && Counted(list, mods) && Depends(mods, mods', m, d)
    ensures Listed(list, mods') && Counted(list, mods')
  {
    var k := WithoutDistinct(list, m);
    forall p | p in mods ensures mods'[p].deps == Naming(list, mods', p) {
      NamingWithout(list, mods, m, p);
      NamingWithout(list, mods', m, p);
      NamingFrame(Without(list, m), mods, mods', p);
      CountConcat(mods[m].dep, [d], p);
    }
  }

  // one more dependency of a loading record: the entry and the count go up together
  lemma DependSound(list: seq<Ptr>, mods: Mods, rank: map<Ptr, nat>, clock: nat,
                    frames: seq<Frame>, links: set<(Ptr, nat)>, m: Ptr, d: Ptr, mods': Mods)
    requires Sound(list, mods, rank, clock, frames, links) && Depends(mods, mods', m, d)
    ensures Sound(list, mods', rank, clock, frames, links)
  {
    hide Listed, Counted, DepsSettled, Ranked;
    DependCounted(list, mods, m, d, mods');
    DependDeps(mods, rank, clock, m, d, mods');
  }

  lemma DependDeps(mods: Mods, rank: map<Ptr, nat>, clock: nat, m: Ptr, d: Ptr, mods': Mods)
    requires DepsSettled(mods) && Ranked(mods, rank, clock) && Depends(mods, mods', m, d)
    ensures DepsSettled(mods') && Ranked(mods', rank, clock)
  {
  }

  // mods' is mods with m no longer loading
  ghost predicate Settles(mods: Mods, mods': Mods, m: Ptr) {
    && OnlyOwn(mods, mods', m)
    && !mods'[m].loading && mods'[m].dep == mods[m].dep && mods'[m].deps == mods[m].deps
    && mods'[m].nlink == mods[m].nlink
  }

  // a settling record takes the next rank, above everything it depends on
  lemma SettleSound(list: seq<Ptr>, mods: Mods, rank: map<Ptr, nat>, clock: nat,
                    frames: seq<Frame>, links: set<(Ptr, nat)>, mods': Mods)
    requires Sound(list, mods, rank, clock, frames, links) && frames != []
    requires Settles(mods, mods', frames[0].mod)
    ensures Sound(list, mods', rank[frames[0].mod := clock], clock + 1, frames[1..], links)
  {
    hide Listed, Counted, DepsSettled, Ranked;
    SettleCounted(list, mods, mods', frames[0].mod);
    SettleDeps(mods, rank, clock, mods', frames[0].mod);
    PopFramed(mods, mods', frames);
  }

  lemma SettleCounted(list: seq<Ptr>, mods: Mods, mods': Mods, m: Ptr)
    requires Listed(list, mods) && Counted(list, mods) && Settles(mods, mods', m)
    ensures Listed(list, mods') && Counted(list, mods')
  {
    forall p | p in mods ensures Naming(list, mods, p) == Naming(list, mods', p) {
      NamingFrame(list, mods, mods', p);
    }
  }

  lemma SettleDeps(mods: Mods, rank: map<Ptr, nat>, clock: nat, mods': Mods, m: Ptr)
    requires DepsSettled(mods) && Ranked(mods, rank, clock) && Settles(mods, mods', m) && mods[m].loading
    ensures DepsSettled(mods') && Ranked(mods', rank[m := clock], clock + 1)
  {
  }

  lemma IdleFrame(cs: seq<Ptr>, mods: Mods, mods': Mods)
    requires Idle(cs, mods) && SameDeps(mods, mods') && forall p | p in mods :: mods'[p].refs == mods[p].refs
    ensures Idle(cs, mods')
  {
  }

  // the credentials once every frame from the innermost out has been closed
  ghost function CredsAfter(frames: seq<Frame>, now: Creds): Creds {
    if frames == [] then now
    else CredsAfter(frames[1..], Closed(frames[0], now))
  }

  // one frame more, which gives back what it took
  lemma ChainPushed(frames: seq<Frame>, f: Frame, now: Creds)
    requires AllShallow(frames) && f.saved == now
    ensures CredsAfter([f] + frames, if f.swapped then System else now) == CredsAfter(frames, now)
    ensures !f.loaded ==> Shallow([f] + frames)
  {
    assert ([f] + frames)[1..] == frames;
  }

  lemma {:induction false} ChainPopped(frames: seq<Frame>, now: Creds)
    requires frames != [] && !frames[0].swapped && Shallow(frames)
    ensures CredsAfter(frames[1..], now) == CredsAfter(frames, now) && Shallow(frames[1..])
  {
  }

  // the credentials once one frame has been closed
  function Closed(f: Frame, now: Creds): Creds {
    if f.swapped then f.saved else now
  }

  // where the guard's chain and the process stand
  datatype Stand = Stand(frames: seq<Frame>, lost: seq<Frame>, creds: Creds)

  // loads begun since s0 are either over or, after an interrupt, innermost in the chain
  ghost predicate Nested(s0: Stand, s: Stand, intr: bool) {
    && Within(s0.frames, s.frames) && Within(s0.lost, s.lost)
    && CredsAfter(s.frames, s.creds) == CredsAfter(s0.frames, s0.creds)
    && (!intr ==> s == s0)
  }

  // the same, the innermost frame of s0 being that of m, whose file may have been closed
  ghost predicate Filling(s0: Stand, s: Stand, m: Ptr, intr: bool)
    requires s0.frames != []
  {
    && Within(s0.frames[1..], s.frames) && Within(s0.lost, s.lost)
    && CredsAfter(s.frames, s.creds) == CredsAfter(s0.frames, s0.creds)
    && (!intr ==>
         s.frames != [] && s.frames[0].mod == m && s.frames[1..] == s0.frames[1..] && s.lost == s0.lost
         && Closed(s.frames[0], s.creds) == Closed(s0.frames[0], s0.creds))
  }

  lemma NestedSame(s: Stand, intr: bool)
    ensures Nested(s, s, intr)
  {
  }

  lemma FillingSame(s: Stand, m: Ptr, intr: bool)
    requires s.frames != [] && s.frames[0].mod == m
    ensures Filling(s, s, m, intr)
  {
  }

  lemma NestedFilling(s0: Stand, s: Stand, m: Ptr, intr: bool)
    requires Nested(s0, s, intr) && s0.frames != [] && s0.frames[0].mod == m
    ensures Filling(s0, s, m, intr)
  {
    WithinTail(s0.frames, s.frames);
  }

  // what was looked up since was looked up as the system
  ghost predicate BySystem(l0: seq<(string, Creds)>, l: seq<(string, Creds)>) {
    l0 <= l && forall k | |l0| <= k < |l| :: l[k].1 == System
  }

  /** What was looked up since is the path, as c, and after that only dependencies, as the system. */
  ghost predicate LookedUp(l0: seq<(string, Creds)>, l: seq<(string, Creds)>, path: string, c: Creds) {
    l0 <= l && (l != l0 ==> l[|l0|] == (path, c) && BySystem(l0 + [(path, c)], l))
  }

  lemma SystemNone(l: seq<(string, Creds)>)
    ensures BySystem(l, l)
  {
  }

  lemma SystemOn(l0: seq<(string, Creds)>, l1: seq<(string, Creds)>, l: seq<(string, Creds)>)
    requires BySystem(l0, l1) && BySystem(l1, l)
    ensures BySystem(l0, l)
  {
  }

  lemma SystemLooked(l0: seq<(string, Creds)>, l: seq<(string, Creds)>, path: string)
    requires LookedUp(l0, l, path, System)
    ensures BySystem(l0, l)
  {
  }

  lemma LookedNone(l: seq<(string, Creds)>, path: string, c: Creds)
    ensures LookedUp(l, l, path, c)
  {
  }

  lemma LookedFirst(l0: seq<(string, Creds)>, l: seq<(string, Creds)>, path: string, c: Creds)
    requires BySystem(l0 + [(path, c)], l)
    ensures LookedUp(l0, l, path, c) && l != l0
  {
    assert (l0 + [(path, c)])[|l0|] == (path, c);
    assert forall k | 0 <= k < |l0| :: (l0 + [(path, c)])[k] == l0[k];
  }

  // one file's stages after its dependencies
  lemma FillingOn(s0: Stand, s: Stand, m: Ptr, intr: bool)
    requires s0.frames != [] && s0.frames[0].mod == m && s.frames != [] && s.frames[0].mod == m
    requires s.frames[1..] == s0.frames[1..] && s.lost == s0.lost
    requires CredsAfter(s.frames, s.creds) == CredsAfter(s0.frames, s0.creds)
    requires Closed(s.frames[0], s.creds) == Closed(s0.frames[0], s0.creds)
    ensures Filling(s0, s, m, intr)
  {
    WithinTail(s.frames, s.frames);
  }

  // a load has begun, with a frame of its own
  ghost predicate Begun(s0: Stand, s1: Stand, f: Frame) {
    && s1.frames == [f] + s0.frames && s1.lost == s0.lost && !f.loaded
    && CredsAfter(s1.frames, s1.creds) == CredsAfter(s0.frames, s0.creds)
    && (if f.swapped then f.saved == s0.creds else s1.creds == s0.creds)
  }

  lemma BegunFrames(s0: Stand, s1: Stand, f: Frame)
    requires Begun(s0, s1, f)
    ensures s1.frames != [] && s1.frames[0] == f && s1.frames[1..] == s0.frames && s1.lost == s0.lost
  {
  }

  // a load that began, interrupted, or undone, or settled
  lemma BegunNested(s0: Stand, s1: Stand, s2: Stand, s: Stand, f: Frame, intr: bool)
    requires Begun(s0, s1, f) && s1.frames != [] && Filling(s1, s2, f.mod, intr)
    requires intr ==> s == s2
    requires !intr ==> s.frames == s2.frames[1..] && s.creds == Closed(s2.frames[0], s2.creds)
    requires !intr ==> s.lost == s2.lost || (|s.lost| == |s2.lost| + 1 && s.lost[1..] == s2.lost)
    ensures Nested(s0, s, intr || s.lost != s2.lost)
  {
    assert s1.frames[1..] == s0.frames;
  }

  lemma BeginShallow(fs: seq<Frame>, gs: seq<Frame>)
    requires AllShallow(fs) && gs != [] && !gs[0].loaded && gs[1..] == fs
    ensures AllShallow(gs)
  {
    forall i | 0 <= i < |gs| ensures !gs[i].loaded {
      assert i > 0 ==> gs[i] == fs[i - 1];
    }
  }

  // the loading records are among those of the frames
  ghost predicate LoadingIn(mods: Mods, fs: seq<Frame>) {
    forall p | p in mods && mods[p].loading :: exists f :: f in fs && f.mod == p
  }

  // no record is loading that was not loading before
  ghost predicate OldLoading(mods0: Mods, mods: Mods) {
    forall p | p in mods && mods[p].loading :: p in mods0 && mods0[p].loading
  }

  lemma StillLoading(mods0: Mods, mods: Mods, m: Ptr, lost0: seq<Frame>, lost: seq<Frame>)
    requires LoadingIn(mods, lost)
    requires forall f | f in lost0 :: f.mod in mods0 && mods0[f.mod].loading
    ensures lost == lost0 ==> OldLoading(mods0, mods)
  {
  }

  lemma WithinCons(f: Frame, fs: seq<Frame>)
    ensures Within(fs, [f] + fs)
  {
  }

  // the frames of a chain are of different records
  lemma ChainApart(mods: Mods, frames: seq<Frame>, lost: seq<Frame>, lost0: seq<Frame>)
    requires Framed(mods, frames + lost) && Within(lost0, lost)
    ensures forall f, g | f in frames && g in lost0 :: f.mod != g.mod
  {
    forall f, g | f in frames && g in lost0 ensures f.mod != g.mod {
      var i :| 0 <= i < |frames| && frames[i] == f;
      var k :| 0 <= k < |lost0| && lost0[k] == g;
      var d := |lost| - |lost0|;
      assert lost[d..][k] == g;
      assert (frames + lost)[i] == f && (frames + lost)[|frames| + d + k] == g;
    }
  }

  lemma WithinLost(fs: seq<Frame>)
    ensures Within(fs, fs)
  {
  }

  lemma WithinTwice(a: seq<Frame>, b: seq<Frame>, c: seq<Frame>)
    requires Within(a, b) && Within(b, c)
    ensures Within(a, c) && (c == a ==> b == a)
  {
    if c == a {
      assert |b| == |a|;
    }
  }

  // only the innermost load can be past its load entry
  ghost predicate Shallow(frames: seq<Frame>) {
    forall i | 1 <= i < |frames| :: !frames[i].loaded
  }

  ghost predicate AllShallow(frames: seq<Frame>) {
    forall i | 0 <= i < |frames| :: !frames[i].loaded
  }

  lemma ShallowTail(frames: seq<Frame>)
    requires frames != [] && Shallow(frames)
    ensures Shallow(frames[1..])
  {
  }

  lemma LostApart(mods: Mods, fs: seq<Frame>, gs: seq<Frame>, n: nat)
    requires 0 < n <= |fs| == |gs| && Framed(mods, fs)
    requires forall i | 0 <= i < |gs| :: gs[i].mod == fs[Source(i, n)].mod
    ensures forall i, j | 0 <= i < j < |gs| :: gs[i].mod != gs[j].mod
  {
    forall i, j | 0 <= i < j < |gs| ensures gs[i].mod != gs[j].mod {
      assert fs[Source(i, n)].mod != fs[Source(j, n)].mod;
    }
  }

  // the innermost frame put among the lost ones
  lemma LostFramed(mods: Mods, mods': Mods, fs: seq<Frame>, gs: seq<Frame>, n: nat)
    requires 0 < n <= |fs| == |gs| && Framed(mods, fs) && SameDeps(mods, mods')
    requires forall i | 0 <= i < n - 1 :: gs[i].mod == fs[i + 1].mod
    requires gs[n - 1].mod == fs[0].mod && forall i | n <= i < |fs| :: gs[i].mod == fs[i].mod
    ensures Framed(mods', gs)
  {
    forall i | 0 <= i < |gs| ensures gs[i].mod == fs[Source(i, n)].mod {
    }
    LostApart(mods, fs, gs, n);
    forall i | 0 <= i < |gs| ensures gs[i].mod in mods' && mods'[gs[i].mod].loading {
      assert gs[i].mod == fs[Source(i, n)].mod;
    }
    forall p | p in mods' && mods'[p].loading ensures exists i :: 0 <= i < |gs| && gs[i].mod == p {
      var i :| 0 <= i < |fs| && fs[i].mod == p;
      assert gs[if i == 0 then n - 1 else if i < n then i - 1 else i].mod == p;
    }
  }

  // where the frame at i was before
  function Source(i: nat, n: nat): nat {
    if i < n - 1 then i + 1 else if i == n - 1 then 0 else i
  }

  lemma LostChain(frames: seq<Frame>, closed: seq<Frame>, lost: seq<Frame>)
    requires frames != [] && closed != [] && closed[0].mod == frames[0].mod && closed[1..] == frames[1..]
    ensures var fs, gs, n := frames + lost, closed[1..] + ([closed[0]] + lost), |frames|;
      && 0 < n <= |fs| == |gs| && gs[n - 1].mod == fs[0].mod
      && (forall i | 0 <= i < n - 1 :: gs[i].mod == fs[i + 1].mod)
      && forall i | n <= i < |fs| :: gs[i].mod == fs[i].mod
  {
    assert |closed| == |frames|;
    forall i | 1 <= i < |frames| ensures closed[i] == frames[i] {
      assert closed[1..][i - 1] == frames[1..][i - 1];
    }
  }

  // a record left behind loses its linkages
  lemma CutKept(mods0: Mods, mods: Mods, mods': Mods, m: Ptr, files: map<string, File>, kern: Kernel)
    requires Kept(mods0, mods, NULL) && Grown(mods0, mods, files, kern) && DepsSettled(mods)
    requires m in mods && m !in mods0 && mods[m].loading && mods' == mods[m := mods[m].(nlink := 0)]
    ensures Kept(mods0, mods', NULL) && Grown(mods0, mods', files, kern)
  {
  }

  // ----- what a load adds

  // the dependency names dlm_load follows: those not in the static kernel
  function Wanted(deps: seq<string>, statics: set<string>): seq<string> {
    if deps == [] then []
    else (if deps[0] in statics then [] else [deps[0]]) + Wanted(deps[1..], statics)
  }

  lemma {:induction false} WantedNone(statics: set<string>)
    ensures Wanted([], statics) == []
  {
  }

  lemma {:induction false} WantedSnoc(deps: seq<string>, statics: set<string>, n: nat)
    requires n < |deps|
    ensures Wanted(deps[..n+1], statics)
         == Wanted(deps[..n], statics) + (if deps[n] in statics then [] else [deps[n]])
  {
    if n > 0 {
      assert deps[..n+1][1..] == deps[1..][..n] && deps[..n][1..] == deps[1..][..n-1];
      WantedSnoc(deps[1..], statics, n - 1);
    } else {
      assert deps[..1][1..] == [];
    }
  }

  // the record's dependencies are the named modules, in order
  ghost predicate Follows(mods: Mods, dep: seq<Ptr>, names: seq<string>) {
    |dep| == |names| && forall i | 0 <= i < |dep| :: dep[i] in mods && mods[dep[i]].name == LastComp(names[i])
  }

  // no hold, no call, no file of its own in use, no demand
  predicate Rested(r: Mod) {
    r.refs == 0 && r.incall == 0 && !r.fsbusy && !r.demand
  }

  // a record that is being loaded, before its file is read
  predicate Raw(r: Mod) {
    r.loading && !r.unloading && r.dep == [] && r.nlink == 0 && Rested(r)
  }

  lemma BlankRaw(name: string, id: nat)
    ensures Raw(Blank(name, id)) && Blank(name, id).name == name
  {
  }

  // the record m without its demand mark
  ghost function Bare(mods: Mods, m: Ptr): Mods {
    if m in mods then mods[m := mods[m].(demand := false)] else mods
  }

  // p went through every stage of loading its file, is locked when all modules are, and nobody uses it yet
  ghost predicate Finished(mods: Mods, p: Ptr, files: map<string, File>, kern: Kernel) {
    && p in mods
    && mods[p].path in files
    && var f := files[mods[p].path];
    && f.find.Done? && f.hdr.Done? && f.depsOk && f.image.Done? && f.wrap.Done? && f.entry.Done?
    && (forall i | 0 <= i < |f.install| :: f.install[i].Done?)
    && mods[p].name == LastComp(mods[p].path)
    && mods[p].symok && !mods[p].unloading
    && mods[p].nlink == |f.install|
    && Follows(mods, mods[p].dep, Wanted(f.deps, kern.statics))
    && mods[p].locked == kern.prflock && Rested(mods[p])
  }

  // every old record but m is as it was, its dependency count apart
  ghost predicate Kept(mods0: Mods, mods: Mods, m: Ptr) {
    forall p | p in mods0 && p != m :: p in mods && mods[p] == mods0[p].(deps := mods[p].deps)
  }

  lemma FollowsKept(mods: Mods, mods': Mods, dep: seq<Ptr>, names: seq<string>)
    requires Follows(mods, dep, names) && Kept(mods, mods', NULL) && NULL !in mods
    ensures Follows(mods', dep, names)
  {
  }

  lemma {:induction false} DependKeeps(mods0: Mods, mods: Mods, mods': Mods, m: Ptr, d: Ptr, files: map<string,
                                       File>, kern: Kernel, names: seq<string>, name: string)
    requires Depends(mods, mods', m, d) && m in mods0 && DepsSettled(mods)
    requires Kept(mods0, mods, m) && Grown(mods0, mods, files, kern)
    requires Follows(mods, mods[m].dep, names) && mods[d].name == LastComp(name)
    ensures Kept(mods0, mods', m) && Grown(mods0, mods', files, kern)
    ensures Follows(mods', mods'[m].dep, names + [name])
  {
    hide DepsSettled, Finished, Grown, Kept, Depends, Follows;
    DependStep(mods, mods', m, d, files, kern);
    DependFollows(mods, mods', m, d, names, name);
    GrownTrans(mods0, mods, mods', m, files, kern);
    KeptTrans(mods0, mods, mods', m);
  }

  lemma DependStep(mods: Mods, mods': Mods, m: Ptr, d: Ptr, files: map<string, File>, kern: Kernel)
    requires Depends(mods, mods', m, d)
    ensures Grown(mods, mods', files, kern) && Kept(mods, mods', m)
    ensures m in mods && mods[m].loading && d in mods && m in mods' && forall p | p in mods :: p in mods'
  {
    hide Finished;
  }

  lemma {:induction false} DependFollows(mods: Mods, mods': Mods, m: Ptr, d: Ptr, names: seq<string>, name: string)
    requires Depends(mods, mods', m, d)
    requires Follows(mods, mods[m].dep, names) && mods[d].name == LastComp(name)
    ensures Follows(mods', mods'[m].dep, names + [name])
  {
  }

  lemma KeptTrans(a: Mods, b: Mods, c: Mods, m: Ptr)
    requires Kept(a, b, m) && Kept(b, c, m)
    ensures Kept(a, c, m)
  {
  }

  // every new record is still loading or has finished
  ghost predicate Grown(mods0: Mods, mods: Mods, files: map<string, File>, kern: Kernel) {
    forall p | p in mods && p !in mods0 && !mods[p].loading :: Finished(mods, p, files, kern)
  }

  ghost predicate OnlyOwn(mods: Mods, mods': Mods, m: Ptr) {
    m in mods && m in mods' && mods' == mods[m := mods'[m]]
  }

  // only the record being loaded changes
  lemma OwnKeeps(mods0: Mods, mods: Mods, mods': Mods, m: Ptr, files: map<string, File>,
                 kern: Kernel, names: seq<string>)
    requires m in mods0 && OnlyOwn(mods, mods', m) && DepsSettled(mods)
    requires mods[m].loading && mods'[m].loading && mods'[m].dep == mods[m].dep
    requires Kept(mods0, mods, m) && Grown(mods0, mods, files, kern)
    ensures Kept(mods0, mods', m) && Grown(mods0, mods', files, kern)
    ensures Follows(mods, mods[m].dep, names) ==> Follows(mods', mods'[m].dep, names)
  {
  }

  lemma KeptWeaken(mods0: Mods, mods: Mods, m: Ptr)
    requires Kept(mods0, mods, NULL) && NULL !in mods0
    ensures Kept(mods0, mods, m)
  {
  }

  lemma KeptThrough(mods0: Mods, mods: Mods, mods': Mods, m: Ptr)
    requires Kept(mods0, mods, m) && Kept(mods, mods', NULL) && m in mods && NULL !in mods
    ensures Kept(mods0, mods', m) && m in mods' && mods'[m] == mods[m].(deps := mods'[m].deps)
  {
  }

  // the first step touches only the record itself, the second may bring others
  lemma FilledGrown(mods0: Mods, mods1: Mods, mods: Mods, m: Ptr, files: map<string, File>, kern: Kernel)
    requires OnlyOwn(mods0, mods1, m) && Grown(mods1, mods, files, kern)
    ensures Grown(mods0, mods, files, kern)
  {
  }

  lemma FoundKeeps(mods0: Mods, mods: Mods, m: Ptr, demand: bool, files: map<string, File>, kern: Kernel)
    requires m in mods0 && mods == mods0[m := mods0[m].(demand := mods0[m].demand || demand)]
    ensures Kept(mods0, mods, if demand then m else NULL)
    ensures Grown(mods0, Bare(mods, if demand then m else NULL), files, kern)
  {
  }

  lemma BeginKeeps(mods0: Mods, mods: Mods, mods': Mods, m: Ptr, files: map<string, File>, kern: Kernel)
    requires NULL !in mods0 && m !in mods0 && m in mods && mods == mods0[m := mods[m]] && mods[m].loading
    requires Kept(mods, mods', m) && Grown(mods, mods', files, kern) && m in mods' && mods'[m].loading
    ensures Kept(mods0, mods', NULL) && Grown(mods0, mods', files, kern)
  {
  }

  lemma SettleKeeps(mods0: Mods, mods: Mods, mods': Mods, m: Ptr, demand: bool, files: map<string, File>,
                    kern: Kernel)
    requires NULL !in mods0 && m !in mods0 && Settles(mods, mods', m) && mods[m].loading && DepsSettled(mods)
    requires mods'[m] == mods[m].(loading := false, demand := mods'[m].demand)
    requires mods'[m].demand == (mods[m].demand || demand) && NULL !in mods
    requires Kept(mods0, mods, NULL) && Grown(mods0, mods, files, kern) && Finished(mods, m, files, kern)
    ensures Kept(mods0, mods', NULL) && Grown(mods0, Bare(mods', if demand then m else NULL), files, kern)
  {
    hide Finished, DepsSettled;
    var bare := Bare(mods', if demand then m else NULL);
    FinishedRested(mods, m, files, kern);
    forall p | p in bare && p !in mods0 && !bare[p].loading ensures Finished(bare, p, files, kern) {
      FinishedSame(mods, bare, p, files, kern);
    }
  }

  lemma FinishedRested(mods: Mods, p: Ptr, files: map<string, File>, kern: Kernel)
    requires Finished(mods, p, files, kern)
    ensures p in mods && Rested(mods[p])
  {
  }

  lemma BareNone(mods: Mods)
    requires NULL !in mods
    ensures Bare(mods, NULL) == mods
  {
  }

  // a record that has finished still has when the names are the same
  lemma FinishedSame(mods: Mods, mods': Mods, p: Ptr, files: map<string, File>, kern: Kernel)
    requires Finished(mods, p, files, kern) && p in mods' && mods'[p] == mods[p].(loading := mods'[p].loading)
    requires forall q | q in mods :: q in mods' && mods'[q].name == mods[q].name
    ensures Finished(mods', p, files, kern)
  {
  }

  lemma {:induction false} FinishedIntro(mods: Mods, m: Ptr, path: string, files: map<string, File>, kern: Kernel)
    requires m in mods && path in files && mods[m].path == path && mods[m].name == LastComp(path)
    requires mods[m].symok && !mods[m].unloading && Follows(mods, mods[m].dep, Wanted(files[path].deps, kern.statics))
    requires mods[m].locked == kern.prflock && Rested(mods[m])
    requires var f := files[path];
      f.find.Done? && f.hdr.Done? && f.depsOk && f.image.Done? && f.wrap.Done? && f.entry.Done?
    requires mods[m].nlink == |files[path].install| && forall i | 0 <= i < mods[m].nlink :: files[path].install[i].Done?
    ensures Finished(mods, m, files, kern)
  {
  }

  lemma KeptRefl(mods: Mods, m: Ptr, files: map<string, File>, kern: Kernel)
    ensures Kept(mods, mods, m) && Grown(mods, mods, files, kern)
  {
  }

  lemma GrownRefl(mods: Mods, files: map<string, File>, kern: Kernel)
    ensures Grown(mods, mods, files, kern)
  {
  }

  lemma GrownTrans(a: Mods, b: Mods, c: Mods, m: Ptr, files: map<string, File>, kern: Kernel)
    requires Grown(a, b, files, kern) && Grown(b, c, files, kern)
    requires Kept(b, c, m) && DepsSettled(b) && (m in b ==> b[m].loading) && (m in a || m !in c)
    ensures Grown(a, c, files, kern)
  {
  }

  // undoing one load that a call began leaves what the call keeps
  lemma {:induction false} UnwoundKeeps(mods0: Mods, list0: seq<Ptr>, mods: Mods, list: seq<Ptr>, mods': Mods,
                                        m: Ptr, files: map<string, File>, kern: Kernel)
    requires Listed(list0, mods0) && Listed(list, mods) && DepsSettled(mods) && list0 <= list
    requires Kept(mods0, mods, NULL) && Grown(mods0, mods, files, kern)
    requires m in mods && mods[m].loading && m !in mods0
    requires mods'.Keys == mods.Keys - {m} && Kept(mods, mods', m)
    ensures list0 <= Without(list, m)
    ensures Kept(mods0, mods', NULL) && Grown(mods0, mods', files, kern)
  {
    WithoutKeepsPrefix(list0, list, m);
    assert Grown(mods, mods', files, kern);
    GrownTrans(mods0, mods, mods', m, files, kern);
  }

  // each old record's count has grown by the entries of the records after the old list
  ghost predicate Grew(list0: seq<Ptr>, mods0: Mods, list: seq<Ptr>, mods: Mods) {
    && list0 <= list
    && (forall p | p in list[|list0|..] :: p in mods)
    && forall p | p in mods0 :: p in mods && mods[p].deps == mods0[p].deps + Naming(list[|list0|..], mods, p)
  }

  lemma KeptDep(mods0: Mods, mods: Mods, m: Ptr)
    requires Kept(mods0, mods, m) && (m in mods0 ==> mods == mods0[m := mods0[m].(demand := true)])
    ensures forall p | p in mods0 :: p in mods && mods[p].dep == mods0[p].dep
  {
  }

  lemma DepsGrew(list0: seq<Ptr>, mods0: Mods, list: seq<Ptr>, mods: Mods)
    requires Listed(list0, mods0) && Counted(list0, mods0) && Listed(list, mods) && Counted(list, mods)
    requires list0 <= list && forall p | p in mods0 :: p in mods && mods[p].dep == mods0[p].dep
    ensures Grew(list0, mods0, list, mods)
  {
    var rest := list[|list0|..];
    assert list == list0 + rest;
    forall p | p in mods0
      ensures (forall q | q in rest :: q in mods) && mods[p].deps == mods0[p].deps + Naming(rest, mods, p)
    {
      NamingConcat(list0, rest, mods, p);
      NamingFrame(list0, mods0, mods, p);
    }
    assert forall q | q in rest :: q in list;
  }

  // outer is what is left of frames once the frames pushed later are gone
  ghost predicate Within(outer: seq<Frame>, frames: seq<Frame>) {
    |outer| <= |frames| && frames[|frames| - |outer|..] == outer
  }

  lemma WithinTail(outer: seq<Frame>, frames: seq<Frame>)
    requires outer != [] && Within(outer, frames)
    ensures Within(outer[1..], frames)
  {
  }

  lemma FramedHead(mods: Mods, frames: seq<Frame>)
    requires Framed(mods, frames) && frames != []
    ensures frames[0].mod in mods && mods[frames[0].mod].loading
  {
  }

  // the innermost frame changes, but not its record
  lemma ClosedFramed(mods: Mods, frames: seq<Frame>, frames': seq<Frame>)
    requires Framed(mods, frames) && frames != [] && frames' != []
    requires frames'[0].mod == frames[0].mod && frames'[1..] == frames[1..]
    ensures Framed(mods, frames')
  {
    assert |frames'| == |frames| && forall i | 0 <= i < |frames| :: frames'[i].mod == frames[i].mod;
    forall p | p in mods && mods[p].loading ensures exists i :: 0 <= i < |frames'| && frames'[i].mod == p {
      var i :| 0 <= i < |frames| && frames[i].mod == p;
      assert frames'[i].mod == p;
    }
  }

  // ----- unloading everything that can go

  // the record stays for a reason of its own, whatever its unload entry says
  predicate Fixed(m: Mod) {
    m.refs > 0 || m.incall > 0 || m.locked || m.loading || m.unloading || m.fsbusy
  }

  // it is fixed, or refused when it was last asked
  ghost predicate Sticky(mods: Mods, last: map<Ptr, Outcome>, p: Ptr)
    requires p in mods
  {
    Fixed(mods[p]) || (p in last && !last[p].Done?)
  }

  // path starts at a record that stays, and each step follows a dependency entry
  ghost predicate Chain(mods: Mods, last: map<Ptr, Outcome>, path: seq<Ptr>) {
    && path != []
    && (forall i | 0 <= i < |path| :: path[i] in mods)
    && Sticky(mods, last, path[0])
    && forall i | 0 < i < |path| :: path[i] in mods[path[i-1]].dep
  }

  ghost predicate Needed(mods: Mods, last: map<Ptr, Outcome>, p: Ptr) {
    exists path :: Chain(mods, last, path) && path[|path|-1] == p
  }

  // some records have gone; of the others only counts and demand marks have changed
  ghost predicate Shrunk(mods0: Mods, mods: Mods) {
    forall p | p in mods :: p in mods0
      && mods[p] == mods0[p].(deps := mods[p].deps, demand := mods[p].demand)
      && (mods[p].demand ==> mods0[p].demand)
  }

  // no record has a demand mark but those in transition
  ghost predicate Unmarked(mods: Mods) {
    forall p | p in mods :: !Marked(mods[p])
  }

  predicate Marked(r: Mod) {
    r.demand && !r.loading && !r.unloading
  }

  // what the attempt at one record comes to: EBUSY when it is busy, and else what its entry says
  ghost predicate Answers(r: UnloadResult, busy: bool, entry: Outcome) {
    && (busy ==> r == Refused(EBUSY))
    && (!busy ==> r == match entry case Done => Unloaded case Intr => UnloadInterrupted case Err(e) => Refused(e))
  }

  // the demand mark of m is gone, and when it was unloaded m is too; the others are as before
  ghost predicate Dropped(mods0: Mods, mods: Mods, m: Ptr, gone: bool) {
    if gone then mods.Keys == mods0.Keys - {m} && Kept(mods0, mods, m)
    else m in mods0 && mods == mods0[m := mods0[m].(demand := false)]
  }

  // every record with a reason of its own is still there
  ghost predicate Retained(mods0: Mods, mods: Mods) {
    forall p | p in mods0 && Fixed(mods0[p]) :: p in mods
  }

  // along a chain of dependency entries that begins with a record still there, every record is
  lemma {:induction false} NeededStays(mods0: Mods, mods: Mods, last: map<Ptr, Outcome>, path: seq<Ptr>)
    requires Shrunk(mods0, mods) && Retained(mods0, mods) && DepsSettled(mods)
    requires Chain(mods0, last, path) && forall p | p in last :: p in mods
    ensures path[|path|-1] in mods
    decreases |path|
  {
    if |path| > 1 {
      var front := path[..|path|-1];
      assert Chain(mods0, last, front);
      NeededStays(mods0, mods, last, front);
      assert path[|path|-1] in mods0[front[|front|-1]].dep;
    }
  }

  // When every record left has a reason to stay or a count, every one of them is needed.
  lemma {:induction false} StuckNeeded(mods0: Mods, list: seq<Ptr>, mods: Mods, rank: map<Ptr, nat>, clock: nat,
                                       last: map<Ptr, Outcome>, p: Ptr)
    requires Shrunk(mods0, mods) && Listed(list, mods) && Counted(list, mods)
    requires DepsSettled(mods) && Ranked(mods, rank, clock)
    requires forall q | q in mods :: Sticky(mods, last, q) || mods[q].deps > 0
    requires p in mods
    ensures Needed(mods0, last, p)
    decreases if p in rank then clock - rank[p] else 0
  {
    if Sticky(mods, last, p) {
      assert Chain(mods0, last, [p]) && [p][0] == p;
    } else {
      var q := NamingFrom(list, mods, p);
      if Sticky(mods, last, q) {
        assert Chain(mods0, last, [q]) && [q][|[q]|-1] == q;
        assert Needed(mods0, last, q);
      } else {
        StuckNeeded(mods0, list, mods, rank, clock, last, q);
      }
      var path :| Chain(mods0, last, path) && path[|path|-1] == q;
      var longer := path + [p];
      assert Chain(mods0, last, longer) && longer[|longer|-1] == p;
    }
  }

  // what the k-th unload entry called answers; the script over, all agree
  function Answer(answers: seq<Outcome>, k: nat): Outcome {
    if k < |answers| then answers[k] else Done
  }

  // none of the first n is interrupted
  ghost predicate NoIntr(answers: seq<Outcome>, n: nat) {
    forall k | 0 <= k < n :: !Answer(answers, k).Intr?
  }

  // p is the k-th asked, and none asked from then on has gone
  ghost predicate AskedAt(asks: seq<Ptr>, answers: seq<Outcome>, k: nat, p: Ptr) {
    k < |asks| && asks[k] == p && forall l | k <= l < |asks| :: !Answer(answers, l).Done?
  }

  /** The records asked, in order, and what each answered: exactly those that agreed have gone, and the others'
      answers since one last did are those of last. */
  ghost predicate Asked(mods0: Mods, mods: Mods, last: map<Ptr, Outcome>, asks: seq<Ptr>, answers: seq<Outcome>) {
    && (forall k | 0 <= k < |asks| && Answer(answers, k).Done? :: asks[k] in mods0 && asks[k] !in mods)
    && (forall p | p in mods0 && p !in mods :: exists k: nat :: k < |asks| && asks[k] == p && Answer(answers, k).Done?)
    && (forall p | p in last :: exists k: nat :: AskedAt(asks, answers, k, p) && last[p] == Answer(answers, k))
  }

  lemma AskedNone(mods: Mods, answers: seq<Outcome>)
    ensures Asked(mods, mods, map[], [], answers)
  {
  }

  // one more agreed, and has gone
  lemma AskedGone(mods0: Mods, mods: Mods, mods': Mods, last: map<Ptr, Outcome>, asks: seq<Ptr>, answers: seq<Outcome>,
                  m: Ptr)
    requires Asked(mods0, mods, last, asks, answers) && m in mods0 && mods'.Keys == mods.Keys - {m}
    requires Answer(answers, |asks|).Done?
    ensures Asked(mods0, mods', map[], asks + [m], answers)
  {
    var asks' := asks + [m];
    forall p | p in mods0 && p !in mods'
      ensures exists k: nat :: k < |asks'| && asks'[k] == p && Answer(answers, k).Done?
    {
      if p in mods {
        assert asks'[|asks|] == p;
      } else {
        var k: nat :| k < |asks| && asks[k] == p && Answer(answers, k).Done?;
        assert asks'[k] == p;
      }
    }
  }

  // one more refused
  lemma AskedOn(mods0: Mods, mods: Mods, mods': Mods, last: map<Ptr, Outcome>, asks: seq<Ptr>, answers: seq<Outcome>,
                m: Ptr)
    requires Asked(mods0, mods, last, asks, answers) && mods'.Keys == mods.Keys
    requires !Answer(answers, |asks|).Done?
    ensures Asked(mods0, mods', last[m := Answer(answers, |asks|)], asks + [m], answers)
    ensures Asked(mods0, mods', last, asks + [m], answers)
  {
    var asks', last' := asks + [m], last[m := Answer(answers, |asks|)];
    forall p | p in mods0 && p !in mods'
      ensures exists k: nat :: k < |asks'| && asks'[k] == p && Answer(answers, k).Done?
    {
      var k: nat :| k < |asks| && asks[k] == p && Answer(answers, k).Done?;
      assert asks'[k] == p;
    }
    assert AskedAt(asks', answers, |asks|, m);
    forall p | p in last
      ensures exists k: nat :: AskedAt(asks', answers, k, p) && last[p] == Answer(answers, k)
    {
      var k: nat :| AskedAt(asks, answers, k, p) && last[p] == Answer(answers, k);
      assert AskedAt(asks', answers, k, p);
    }
  }

  lemma AskedSame(mods0: Mods, mods: Mods, mods': Mods, last: map<Ptr, Outcome>, asks: seq<Ptr>, answers: seq<Outcome>)
    requires Asked(mods0, mods, last, asks, answers) && mods'.Keys == mods.Keys
    ensures Asked(mods0, mods', last, asks, answers)
  {
  }

  // what an attempt adds to them
  lemma AskNext(mods0: Mods, mods: Mods, mods': Mods, last0: map<Ptr, Outcome>, asks0: seq<Ptr>, answers: seq<Outcome>,
                m: Ptr, asked: bool, u: UnloadResult)
    returns (last: map<Ptr, Outcome>, asks: seq<Ptr>)
    requires Asked(mods0, mods, last0, asks0, answers) && NoIntr(answers, |asks0|)
    requires mods.Keys <= mods0.Keys && m in mods && forall p | p in last0 :: last0[p] in answers && last0[p].Err?
    requires !u.Panic? && mods'.Keys == if u.Unloaded? then mods.Keys - {m} else mods.Keys
    requires u.Unloaded? <==> asked && Answer(answers, |asks0|).Done?
    requires u.Refused? ==> asked ==> Answer(answers, |asks0|).Err?
    requires u.UnloadInterrupted? ==> asked && Answer(answers, |asks0|).Intr?
    ensures Asked(mods0, mods', last, asks, answers) && forall p | p in last :: last[p] in answers && last[p].Err?
    ensures |asks| == if asked then |asks0| + 1 else |asks0|
    ensures if u.UnloadInterrupted? then Answer(answers, |asks| - 1).Intr? && NoIntr(answers, |asks| - 1)
            else NoIntr(answers, |asks|)
    ensures u.Unloaded? ==> last == map[]
    ensures u.Refused? ==> last == if asked then last0[m := Answer(answers, |asks0|)] else last0
  {
    var answer := Answer(answers, |asks0|);
    last, asks := if asked && answer.Err? then last0[m := answer] else last0, if asked then asks0 + [m] else asks0;
    if !asked {
      AskedSame(mods0, mods, mods', last0, asks0, answers);
    } else if u.Unloaded? {
      AskedGone(mods0, mods, mods', last0, asks0, answers, m);
      last := map[];
    } else {
      AskedOn(mods0, mods, mods', last0, asks0, answers, m);
    }
  }

  // nobody uses a module, and they are locked or not, all alike
  ghost predicate AtRest(mods: Mods, flock: bool) {
    forall p | p in mods :: var r := mods[p];
      r.refs == 0 && r.incall == 0 && !r.fsbusy && !r.loading && !r.unloading && r.locked == flock
  }

  lemma WithinNone(outer: seq<Frame>, frames: seq<Frame>)
    requires Within(outer, frames)
    ensures frames == [] ==> outer == []
  {
  }

  // a load that is over leaves modules nobody uses
  lemma LoadAtRest(mods0: Mods, mods: Mods, m: Ptr, files: map<string, File>, kern: Kernel)
    requires AtRest(mods0, kern.prflock) && OldLoading(mods0, mods) && Kept(mods0, mods, m)
    requires Grown(mods0, Bare(mods, m), files, kern)
    requires m in mods0 ==> mods == mods0[m := mods0[m].(demand := true)]
    ensures AtRest(mods, kern.prflock) && forall p | p in mods0 :: p in mods
  {
    var bare := Bare(mods, m);
    forall p | p in mods && p !in mods0
      ensures Rested(bare[p]) && !bare[p].unloading && bare[p].locked == kern.prflock
    {
      assert Finished(bare, p, files, kern);
    }
  }

  // what a sweep leaves of modules nobody uses, when no unload entry refuses
  lemma SweptRest(mods0: Mods, mods: Mods, last: map<Ptr, Outcome>, flock: bool)
    requires AtRest(mods0, flock) && Shrunk(mods0, mods) && Retained(mods0, mods) && last == map[]
    requires forall p :: p in mods <==> Needed(mods0, last, p)
    ensures mods.Keys == if flock then mods0.Keys else {}
  {
    forall p | p in mods ensures flock {
      var path :| Chain(mods0, last, path) && path[|path|-1] == p;
    }
  }

  lemma AllRetained(mods: Mods)
    ensures Shrunk(mods, mods) && Retained(mods, mods) && Stuck([], mods, map[])
  {
  }

  // each of these records would be refused, and the answers are theirs
  ghost predicate Stuck(ps: seq<Ptr>, mods: Mods, last: map<Ptr, Outcome>) {
    && (forall p | p in ps :: p in mods && !Marked(mods[p]) && (Sticky(mods, last, p) || mods[p].deps > 0))
    && forall p | p in last :: p in ps
  }

  // the walk passes a record that was refused; only its demand mark may have changed
  lemma StuckStep(mods0: Mods, list: seq<Ptr>, mods: Mods, mods': Mods, last: map<Ptr, Outcome>,
                  last': map<Ptr, Outcome>, i: nat)
    requires i < |list| && Distinct(list) && list[i] in mods && Stuck(list[..i], mods, last)
    requires mods' == mods || mods' == mods[list[i] := mods[list[i]].(demand := false)]
    requires last' == last || (list[i] in last' && last' == last[list[i] := last'[list[i]]])
    requires !Marked(mods'[list[i]]) && (Sticky(mods', last', list[i]) || mods'[list[i]].deps > 0)
    requires Shrunk(mods0, mods) && Retained(mods0, mods)
    ensures Stuck(list[..i+1], mods', last')
    ensures Shrunk(mods0, mods') && Retained(mods0, mods')
  {
  }

  // a record that went had no reason of its own to stay
  lemma GoneKeeps(mods0: Mods, mods: Mods, mid: Mods, mods': Mods, m: Ptr)
    requires Shrunk(mods0, mods) && Retained(mods0, mods)
    requires m in mods && mid == mods[m := mods[m].(demand := false)] && !Busy(mid[m])
    requires mods'.Keys == mid.Keys - {m} && Kept(mid, mods', m)
    ensures Shrunk(mods0, mods') && Retained(mods0, mods')
    ensures mods'.Keys < mods.Keys
  {
    assert m in mods.Keys && m !in mods'.Keys;
  }

  lemma {:induction false} WithoutShorter(list: seq<Ptr>, m: Ptr)
    requires Distinct(list) && m in list
    ensures |Without(list, m)| == |list| - 1
  {
    var k := WithoutDistinct(list, m);
  }
}
