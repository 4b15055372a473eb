/**
 The loadable-module core: loading with recursive dependencies, failure and
 interrupt unwinding, unloading.  One process runs; a record in transition
 therefore belongs to the caller.  What a module file and its entry points
 answer is given by a script per path, in which any step may succeed, fail or
 be interrupted.
 */
module Lifecycle {
  import opened CandList
  import opened ModRecords
  import opened LoadSpec

  class Core {
    const inited: bool
    const statics: set<string>
    const maxNameLen: nat
    const prflock: bool
    const cands: List

    var mods: Mods
    var list: seq<Ptr>
    var nextid: nat
    var links: set<(Ptr, nat)>        // linkages installed in the kernel's switches
    var frames: seq<Frame>            // g_lf, innermost first
    var unl: Ptr                      // g_unl
    var unlnl: nat                    // g_unlnl
    var creds: Creds
    // the loads whose undoing was cut short: their records stay in the list, loading for good
    ghost var lost: seq<Frame>
    ghost var rank: map<Ptr, nat>
    ghost var clock: nat
    // the record each id was given to
    ghost var owner: map<nat, Ptr>
    // the paths looked up, and as whom
    ghost var looked: seq<(string, Creds)>

    // The invariant of the records and lists; it also holds while a load is in progress.
    ghost predicate Inv()
      reads this, cands
    {
      && cands.Valid() && cands.links.Keys == mods.Keys
      && Sound(list, mods, rank, clock, frames + lost, links)
      && Shallow(frames)
      && Idle(cands.cs, mods)
      && Numbered(mods, owner, nextid)
      && maxNameLen > 0
    }

    constructor (inited: bool, statics: set<string>, maxNameLen: nat, prflock: bool, creds: Creds)
      requires maxNameLen > 0
      ensures Inv() && Unique(mods) && mods == map[] && frames == [] && lost == [] && unl == NULL
      ensures this.creds == creds && fresh(cands)
    {
      this.inited, this.statics, this.maxNameLen, this.prflock := inited, statics, maxNameLen, prflock;
      cands := new List();
      mods, list, nextid, links, frames := map[], [], 1, {}, [];
      unl, unlnl, lost := NULL, 0, [];
      this.creds := creds;
      rank, clock, owner, looked := map[], 0, map[], [];
    }

    method Hold(m: Ptr)
      requires Inv() && m in mods
      modifies this`mods, cands
      ensures Inv()
      ensures mods == old(mods)[m := old(mods[m]).(refs := old(mods[m].refs) + 1)]
      ensures cands.cs == if old(mods[m].refs) == 0 then Without(old(cands.cs), m) else old(cands.cs)
    {
      hide Sound, Linked;
      var refs := mods[m].refs;
      ShapeKeepsSound(list, mods, mods[m := mods[m].(refs := refs + 1)], rank, clock, frames + lost, links);
      mods := mods[m := mods[m].(refs := refs + 1)];
      if refs == 0 {
        cands.CandDel(m);
      }
    }

    method Rele(m: Ptr)
      requires Inv() && m in mods
      modifies this`mods, cands
      ensures Inv()
      ensures var r := old(mods[m].refs);
        && mods == old(mods)[m := old(mods[m]).(refs := if r > 0 then r - 1 else 0)]
        && cands.cs == if r == 1 && old(mods[m].deps) == 0 then old(cands.cs) + [m] else old(cands.cs)
    {
      hide Sound, Linked;
      if mods[m].refs > 0 {
        var refs := mods[m].refs - 1;
        ShapeKeepsSound(list, mods, mods[m := mods[m].(refs := refs)], rank, clock, frames + lost, links);
        mods := mods[m := mods[m].(refs := refs)];
        if refs == 0 && mods[m].deps == 0 {
          cands.CandAdd(m);
        }
      } else {
        assert mods[m := mods[m].(refs := 0)] == mods;
      }
    }

    method DepAdd(m: Ptr)
      requires cands.Valid() && cands.links.Keys == mods.Keys && Idle(cands.cs, mods) && m in mods
      modifies this`mods, cands
      ensures cands.Valid() && cands.links.Keys == mods.Keys && Idle(cands.cs, mods)
      ensures mods == old(mods)[m := old(mods[m]).(deps := old(mods[m].deps) + 1)]
      ensures cands.cs == Without(old(cands.cs), m)
    {
      mods := mods[m := mods[m].(deps := mods[m].deps + 1)];
      cands.CandDel(m);
    }

    method DepRele(m: Ptr)
      requires cands.Valid() && cands.links.Keys == mods.Keys && Idle(cands.cs, mods) && m in mods
      modifies this`mods, cands
      ensures cands.Valid() && cands.links.Keys == mods.Keys && Idle(cands.cs, mods)
      ensures var d := old(mods[m].deps);
        && mods == old(mods)[m := old(mods[m]).(deps := if d > 0 then d - 1 else 0)]
        && cands.cs == if d == 1 && old(mods[m].refs) == 0 then old(cands.cs) + [m] else old(cands.cs)
    {
      hide Linked, Numbered;
      if mods[m].deps > 0 {
        mods := mods[m := mods[m].(deps := mods[m].deps - 1)];
        if mods[m].deps == 0 && mods[m].refs == 0 {
          cands.CandAdd(m);
        }
      } else {
        assert mods[m := mods[m].(deps := 0)] == mods;
      }
    }

    // give back every count the record's m_dep entries took
    method ReleDeps(m: Ptr)
      requires cands.Valid() && cands.links.Keys == mods.Keys && Idle(cands.cs, mods)
      requires Listed(list, mods) && Counted(list, mods) && DepsSettled(mods) && m in mods
      modifies this`mods, cands
      ensures cands.Valid() && cands.links.Keys == mods.Keys && Idle(cands.cs, mods)
      ensures Owing(old(mods), mods, Without(list, m), [])
    {
      hide Linked, Numbered, Listed, Counted, DepsSettled, Idle, Owing;
      var dep := mods[m].dep;
      ghost var mods0, rest := mods, Without(list, m);
      CountedSplit(list, mods, m);
      assert dep[0..] == dep;
      var i := 0;
      while i < |dep|
        invariant 0 <= i <= |dep|
        invariant cands.Valid() && cands.links.Keys == mods.Keys && Idle(cands.cs, mods)
        invariant mods.Keys == mods0.Keys && Owing(mods0, mods, rest, dep[i..])
      {
        assert dep[i..][0] == dep[i] && dep[i..][1..] == dep[i+1..];
        OwingStep(mods0, mods, rest, dep[i..]);
        DepRele(dep[i]);
        i := i + 1;
      }
      assert dep[|dep|..] == [];
    }

    // Free a record: its dependencies' counts come back, it leaves both lists, its address is dead.
    method FreeMod(m: Ptr)
      requires cands.Valid() && cands.links.Keys == mods.Keys && Idle(cands.cs, mods)
      requires Listed(list, mods) && Counted(list, mods) && DepsSettled(mods) && Ranked(mods, rank, clock)
      requires m in mods && mods[m].deps == 0
      modifies this`mods, this`list, cands
      ensures cands.Valid() && cands.links.Keys == mods.Keys && Idle(cands.cs, mods)
      ensures list == Without(old(list), m) && Listed(list, mods) && Counted(list, mods)
      ensures mods.Keys == old(mods.Keys) - {m} && Kept(old(mods), mods, m)
      ensures DepsSettled(mods) && Ranked(mods, rank, clock)
    {
      hide Linked, Numbered, Listed, Counted, DepsSettled, Ranked;
      ReleDeps(m);
      cands.CandDel(m);
      cands.Leave(m);
      FreedListed(list, old(mods), mods, m);
      mods := mods - {m};
      FreedKeepsDeps(list, old(mods), mods, rank, clock, m);
      list := Without(list, m);
    }

    // Change fields that no invariant mentions.
    method Update(m: Ptr, r: Mod)
      requires Inv() && m in mods
      requires var q := mods[m];
        && r.id == q.id && r.dep == q.dep && r.deps == q.deps && r.refs == q.refs
        && r.loading == q.loading && r.nlink == q.nlink
      modifies this`mods
      ensures Inv() && mods == old(mods)[m := r]
    {
      hide Sound, Linked;
      ShapeKeepsSound(list, mods, mods[m := r], rank, clock, frames + lost, links);
      mods := mods[m := r];
    }

    method LinkRemoveAll(m: Ptr)
      requires Installed(mods, links) && m in mods
      modifies this`mods, this`links
      ensures Installed(mods, links) && mods == old(mods)[m := old(mods[m]).(nlink := 0)]
    {
      while mods[m].nlink > 0
        invariant m in mods && mods == old(mods)[m := old(mods[m]).(nlink := mods[m].nlink)]
        invariant Installed(mods, links)
        decreases if m in mods then mods[m].nlink else 0
      {
        var n := mods[m].nlink - 1;
        mods := mods[m := mods[m].(nlink := n)];
        links := links - {(m, n)};
      }
    }

    // close the file and give the process its own credentials back
    method LfClose()
      requires frames != []
      modifies this`frames, this`creds
      ensures frames == [old(frames)[0].(swapped := false)] + old(frames)[1..]
      ensures CredsAfter(frames, creds) == CredsAfter(old(frames), old(creds))
      ensures creds == Closed(old(frames)[0], old(creds))
      ensures CredsAfter(old(frames)[1..], creds) == CredsAfter(old(frames), old(creds))
    {
      if frames[0].swapped {
        creds := frames[0].saved;
      }
      frames := [frames[0].(swapped := false)] + frames[1..];
    }

    // undoing the innermost load will be cut short by its unload entry
    predicate Cuts(files: map<string, File>)
      reads this
    {
      && frames != [] && frames[0].loaded && frames[0].mod in mods && mods[frames[0].mod].path in files
      && files[mods[frames[0].mod].path].undo.Intr?
    }

    // what is left undone after an outcome, when lost0 was lost before
    ghost function JamNow(o: Outcome, lost0: seq<Frame>, files: map<string, File>): Jam
      reads this
    {
      if lost != lost0 then Lost else if !o.Done? && Cuts(files) then Next else NoJam
    }

    /** lf_fail: the innermost load is undone, with its linkages and its record; but when the unload entry
        called for a load that was through its load entry is interrupted, the record stays, loading, and
        no frame names it any more. */
    method LfFail(files: map<string, File>) returns (cut: bool)
      requires Inv() && frames != []
      modifies this`mods, this`list, this`links, this`frames, this`creds, this`lost, cands
      ensures Inv() && frames == old(frames)[1..] && creds == Closed(old(frames)[0], old(creds))
      ensures CredsAfter(frames, creds) == CredsAfter(old(frames), old(creds))
      ensures cut <==> old(Cuts(files))
      ensures var m := old(frames)[0].mod;
        && m in old(mods)
        && (!cut ==> mods.Keys == old(mods.Keys) - {m} && Kept(old(mods), mods, m) && list == Without(old(list), m))
        && (cut ==> mods == old(mods)[m := old(mods)[m].(nlink := 0)] && list == old(list))
      ensures lost == if cut then [old(frames)[0].(swapped := false)] + old(lost) else old(lost)
    {
      hide Linked, Numbered, Sound, Idle, CredsAfter, Kept, Shallow;
      ghost var mods0 := mods;
      AbortFacts(files);
      var m, loaded := frames[0].mod, frames[0].loaded;
      Strip();
      ghost var mods1 := mods;
      if loaded && mods[m].path in files && files[mods[m].path].undo.Intr? {
        LoseInner();
        return true;
      }
      FreeInner();
      FreedKept(mods0, mods1, mods, m);
      return false;
    }

    // the innermost load, one that a call began, is undone: what was there before the call stays
    method UndoNew(files: map<string, File>, ghost mods0: Mods, ghost list0: seq<Ptr>) returns (cut: bool)
      requires Inv() && frames != [] && frames[0].mod !in mods0 && Listed(list0, mods0) && list0 <= list
      requires Kept(mods0, mods, NULL) && Grown(mods0, mods, files, Kern())
      modifies this`mods, this`list, this`links, this`frames, this`creds, this`lost, cands
      ensures Inv() && frames == old(frames)[1..] && creds == Closed(old(frames)[0], old(creds))
      ensures CredsAfter(frames, creds) == CredsAfter(old(frames), old(creds))
      ensures cut <==> old(Cuts(files))
      ensures var m := old(frames)[0].mod;
        && m in old(mods)
        && (!cut ==> mods.Keys == old(mods.Keys) - {m} && Kept(old(mods), mods, m))
        && (cut ==> mods == old(mods)[m := old(mods)[m].(nlink := 0)])
      ensures lost == if cut then [old(frames)[0].(swapped := false)] + old(lost) else old(lost)
      ensures list0 <= list && Kept(mods0, mods, NULL) && Grown(mods0, mods, files, Kern()) && Bare(mods, NULL) == mods
    {
      hide Linked, Numbered, Sound, Idle, CredsAfter, Kept, Grown, Shallow, Bare;
      ghost var m, before, listb := frames[0].mod, mods, list;
      AbortFacts(files);
      cut := LfFail(files);
      if cut {
        CutKept(mods0, before, mods, m, files, Kern());
      } else {
        UnwoundKeeps(mods0, list0, before, listb, mods, m, files, Kern());
      }
      InvFacts();
      BareNone(mods);
    }

    // the innermost load's record freed with its frame
    method FreeInner()
      requires Inv() && frames != [] && frames[0].mod in mods && mods[frames[0].mod].nlink == 0
      modifies this`mods, this`list, this`frames, cands
      ensures Inv() && frames == old(frames)[1..]
      ensures var m := old(frames)[0].mod;
        m in old(mods) && mods.Keys == old(mods.Keys) - {m} && Kept(old(mods), mods, m) && list == Without(old(list), m)
    {
      hide Linked, Numbered, Listed, Counted, DepsSettled, Ranked, Idle, Framed, Installed, Kept, Shallow;
      ghost var mods1 := mods;
      var m := frames[0].mod;
      FramedHead(mods, frames + lost);
      LoadingUnnamed(list, mods, m);
      FreeMod(m);
      FreedInstalled(mods1, mods1, mods, m, links);
      FreedIds(mods1, mods, m, owner, nextid);
      GoneFramed(mods1, mods, frames + lost);
      assert (frames + lost)[1..] == frames[1..] + lost;
      ShallowTail(frames);
      frames := frames[1..];
    }

    // the innermost load's file closed and its linkages removed
    method Strip()
      requires Inv() && frames != [] && frames[0].mod in mods
      modifies this`mods, this`links, this`frames, this`creds
      ensures Inv() && frames == [old(frames)[0].(swapped := false)] + old(frames)[1..]
      ensures creds == Closed(old(frames)[0], old(creds))
      ensures CredsAfter(frames[1..], creds) == CredsAfter(old(frames), old(creds))
      ensures var m := old(frames)[0].mod; mods == old(mods)[m := old(mods)[m].(nlink := 0)]
    {
      hide Linked, Numbered, Listed, Counted, DepsSettled, Ranked, Idle, Framed, Installed, CredsAfter;
      ghost var fs, mods0, links0 := frames, mods, links;
      LfClose();
      assert frames[1..] == fs[1..] && (frames + lost)[1..] == (fs + lost)[1..];
      ClosedFramed(mods, fs + lost, frames + lost);
      LinkRemoveAll(frames[0].mod);
      LinksKeepSound(list, mods0, mods, rank, clock, frames + lost, links0, links);
      SameIds(mods0, mods, owner, nextid);
      IdleFrame(cands.cs, mods0, mods);
    }

    // the innermost frame is looked at no more, with its record still loading
    method LoseInner()
      requires Inv() && frames != []
      modifies this`frames, this`lost
      ensures Inv() && frames == old(frames)[1..] && lost == [old(frames)[0]] + old(lost)
    {
      hide Linked, Numbered, Listed, Counted, DepsSettled, Ranked, Idle, Framed, Installed, Shallow;
      LostChain(frames, frames, lost);
      LostFramed(mods, mods, frames + lost, frames[1..] + ([frames[0]] + lost), |frames|);
      ShallowTail(frames);
      lost := [frames[0]] + lost;
      frames := frames[1..];
    }

    /** dlm_abort: after a longjmp, every load in progress is undone, and what the interrupted call found,
        it leaves; but when the innermost load's unload entry is interrupted in turn, all the rest stays
        as it is, credentials included. */
    method AbortLoads(ghost mods0: Mods, ghost list0: seq<Ptr>, files: map<string, File>) returns (cut: bool)
      requires Inv() && Listed(list0, mods0) && list0 <= list
      requires Kept(mods0, mods, NULL) && Grown(mods0, mods, files, Kern())
      requires forall f | f in frames :: f.mod !in mods0
      modifies this`mods, this`list, this`links, this`frames, this`creds, this`lost, cands
      ensures Inv() && frames == [] && (cut <==> old(Cuts(files)))
      ensures !cut ==> creds == CredsAfter(old(frames), old(creds)) && lost == old(lost)
      ensures cut ==> |lost| > |old(lost)| && Within(old(lost), lost)
      ensures list0 <= list && Kept(mods0, mods, NULL) && Grown(mods0, mods, files, Kern())
      ensures Unique(old(mods)) ==> Unique(mods)
    {
      hide Unique, Sound, Kept, Grown, Linked, Idle, CredsAfter, Within, Shallow, AllShallow, Cuts;
      while frames != []
        invariant Unique(old(mods)) ==> Unique(mods)
        invariant Inv() && CredsAfter(frames, creds) == CredsAfter(old(frames), old(creds))
        invariant lost == old(lost) && (frames == old(frames) ==> Cuts(files) == old(Cuts(files)))
        invariant frames != old(frames) ==> !old(Cuts(files)) && AllShallow(frames)
        invariant forall f | f in frames :: f in old(frames)
        invariant list0 <= list && Kept(mods0, mods, NULL) && Grown(mods0, mods, files, Kern())
        decreases |frames|
      {
        ghost var m, before := frames[0].mod, mods;
        AbortFacts(files);
        cut := UndoNew(files, mods0, list0);
        if cut {
          UnlinkedUnique(before, mods, m);
          ghost var lost1 := lost;
          WithinCons(lost1[0], old(lost));
          AllLost();
          WithinTwice(old(lost), lost1, lost);
          return true;
        }
        GoneUnique(before, mods, m);
      }
      NoFrames(files);
      return false;
    }

    lemma NoFrames(files: map<string, File>)
      ensures frames == [] ==> !Cuts(files) && CredsAfter(frames, creds) == creds
    {
    }

    // the handler gone, no frame is looked at any more
    method AllLost()
      requires Inv()
      modifies this`frames, this`lost
      ensures Inv() && frames == [] && lost == old(frames) + old(lost) && Within(old(lost), lost)
    {
      hide Sound, Linked, Idle;
      assert [] + (frames + lost) == frames + lost;
      lost, frames := frames + lost, [];
    }

    // what an abort uses of the innermost frame
    lemma AbortFacts(files: map<string, File>)
      requires Inv() && frames != []
      ensures frames[0].mod in mods && mods[frames[0].mod].loading
      ensures Listed(list, mods) && DepsSettled(mods) && AllShallow(frames[1..])
      ensures AllShallow(frames) ==> !Cuts(files)
    {
      FramedHead(mods, frames + lost);
    }

    method FindName(name: string) returns (m: Ptr)
      requires Listed(list, mods)
      ensures if m == NULL then forall p | p in mods :: mods[p].name != name else m in mods && mods[m].name == name
    {
      var i := 0;
      while i < |list|
        invariant 0 <= i <= |list|
        invariant forall j | 0 <= j < i :: mods[list[j]].name != name
      {
        if mods[list[i]].name == name {
          return list[i];
        }
        i := i + 1;
      }
      return NULL;
    }

    // the address of a new record
    method Alloc() returns (m: Ptr)
      ensures m != NULL && m !in mods
    {
      ghost var b := Bound(mods.Keys);
      assert b !in mods;
      m :| m != NULL && m !in mods;
    }

    // a zeroed record at the end of the list, marked loading, with a frame; system credentials if asked
    method Begin(name: string, sys: bool) returns (m: Ptr)
      requires Inv() && AllShallow(frames)
      modifies this`mods, this`list, this`nextid, this`owner, this`frames, this`creds, cands
      ensures Inv()
      ensures m != NULL && m !in old(mods) && list == old(list) + [m]
      ensures mods == old(mods)[m := Blank(name, old(nextid))]
      ensures frames == [Frame(m, sys, old(creds), false)] + old(frames)
      ensures creds == if sys then System else old(creds)
      ensures CredsAfter(frames, creds) == CredsAfter(old(frames), old(creds))
      ensures nextid == old(nextid) + 1
    {
      hide Linked, Numbered, Sound, Idle, CredsAfter, Shallow, AllShallow;
      m := Alloc();
      var r, f := Blank(name, nextid), Frame(m, sys, creds, false);
      BeginSound(list, mods, rank, clock, frames + lost, links, m, r, f);
      NewId(cands.cs, mods, m, r, owner, nextid);
      ChainPushed(frames, f, creds);
      assert [f] + (frames + lost) == ([f] + frames) + lost;
      mods := mods[m := r];
      cands.Enter(m);
      owner, nextid := owner[nextid := m], nextid + 1;
      list, frames := list + [m], [f] + frames;
      if sys {
        creds := System;
      }
    }

    // the load is over: the record settles and the frame goes
    method Settle(m: Ptr, demand: bool)
      requires Inv() && frames != [] && frames[0].mod == m && m in mods && mods[m].loading && !frames[0].swapped
      modifies this`mods, this`frames, this`rank, this`clock
      ensures Inv() && frames == old(frames)[1..]
      ensures mods == old(mods)[m := old(mods)[m].(loading := false, demand := mods[m].demand)]
      ensures mods[m].demand == (old(mods)[m].demand || demand)
      ensures CredsAfter(frames, creds) == CredsAfter(old(frames), old(creds))
    {
      hide Linked, Numbered, Sound, Idle, CredsAfter, Shallow;
      var r := mods[m].(loading := false, demand := mods[m].demand || demand);
      ghost var mods1 := mods[m := r];
      SettleSound(list, mods, rank, clock, frames + lost, links, mods1);
      assert (frames + lost)[1..] == frames[1..] + lost;
      SettledId(cands.cs, mods, mods1, m, owner, nextid);
      ChainPopped(frames, creds);
      mods := mods[m := r];
      rank, clock := rank[m := clock], clock + 1;
      frames := frames[1..];
    }

    // one more dependency of the record being loaded
    method Depend(m: Ptr, d: Ptr)
      requires Inv() && m in mods && mods[m].loading && d in mods && !mods[d].loading
      modifies this`mods, cands
      ensures Inv() && Depends(old(mods), mods, m, d)
    {
      hide Linked, Numbered, Sound;
      DepAdd(d);
      mods := mods[m := mods[m].(dep := mods[m].dep + [d])];
      DependSound(list, old(mods), rank, clock, frames + lost, links, m, d, mods);
      SameIds(old(mods), mods, owner, nextid);
    }

    // the file is closed once the image is complete
    method CloseFile()
      requires Inv() && frames != [] && AllShallow(frames)
      modifies this`frames, this`creds
      ensures Inv() && AllShallow(frames) && frames == [old(frames)[0].(swapped := false)] + old(frames)[1..]
      ensures CredsAfter(frames, creds) == CredsAfter(old(frames), old(creds))
      ensures creds == Closed(old(frames)[0], old(creds))
    {
      hide Linked, Numbered, Listed, Counted, Ranked, Installed, Framed, DepsSettled, Idle, CredsAfter;
      ghost var fs := frames;
      LfClose();
      assert frames[1..] == fs[1..] && (frames + lost)[1..] == (fs + lost)[1..];
      ClosedFramed(mods, fs + lost, frames + lost);
    }

    // the load entry is over
    method EnterLoaded()
      requires Inv() && frames != [] && AllShallow(frames)
      modifies this`frames
      ensures Inv() && frames == [old(frames)[0].(loaded := true)] + old(frames)[1..]
      ensures CredsAfter(frames, creds) == CredsAfter(old(frames), creds)
    {
      hide Linked, Numbered, Listed, Counted, Ranked, Installed, Framed, DepsSettled, Idle;
      ghost var fs := frames;
      frames := [frames[0].(loaded := true)] + frames[1..];
      assert frames[1..] == fs[1..] && (frames + lost)[1..] == (fs + lost)[1..];
      ClosedFramed(mods, fs + lost, frames + lost);
    }

    // install the linkages in order, counting them
    method LinkInstallAll(m: Ptr, install: seq<Outcome>) returns (o: Outcome)
      requires Installed(mods, links) && m in mods && mods[m].nlink == 0
      modifies this`mods, this`links
      ensures Installed(mods, links)
      ensures OnlyOwn(old(mods), mods, m) && mods[m] == old(mods)[m].(nlink := mods[m].nlink)
      ensures o.Done? ==> mods[m].nlink == |install| && forall i | 0 <= i < |install| :: install[i].Done?
      ensures o == FirstBad(install) && (!o.Done? ==> o in install)
    {
      assert mods == mods[m := mods[m]];
      var i := 0;
      while i < |install|
        invariant 0 <= i <= |install|
        invariant OnlyOwn(old(mods), mods, m) && mods[m] == old(mods)[m].(nlink := i)
        invariant Installed(mods, links)
        invariant forall j | 0 <= j < i :: install[j].Done?
      {
        FirstBadFrom(install, i);
        if !install[i].Done? {
          return install[i];
        }
        InstalledStep(mods, links, m, i);
        mods := mods[m := mods[m].(nlink := i + 1)];
        links := links + {(m, i)};
        i := i + 1;
      }
      FirstBadFrom(install, i);
      return Done;
    }

    method FillLinks(m: Ptr, install: seq<Outcome>) returns (o: Outcome)
      requires Inv() && m in mods && mods[m].nlink == 0
      modifies this`mods, this`links
      ensures Inv() && OnlyOwn(old(mods), mods, m) && mods[m] == old(mods)[m].(nlink := mods[m].nlink)
      ensures o.Done? ==> mods[m].nlink == |install| && forall i | 0 <= i < |install| :: install[i].Done?
      ensures o == FirstBad(install)
    {
      hide Linked, Numbered, Listed, Counted, DepsSettled, Ranked, Framed, Installed;
      o := LinkInstallAll(m, install);
      LinksKeepSound(list, old(mods), mods, rank, clock, frames + lost, old(links), links);
      SameIds(old(mods), mods, owner, nextid);
    }

    ghost function Here(): Stand
      reads this
    {
      Stand(frames, lost, creds)
    }

    // what a load depends on, apart from the records
    ghost function World(files: map<string, File>): Env {
      Env(inited, statics, maxNameLen, files)
    }

    // the kernel that loads
    ghost function Kern(): Kernel {
      Kernel(statics, prflock)
    }

    lemma InvFacts()
      requires Inv()
      ensures Listed(list, mods) && DepsSettled(mods) && NULL !in mods
    {
    }

    // Load one dependency and count it.  The ghosts are what the records and the list were
    // before the first dependency, and the names already followed.
    method FillDep(m: Ptr, name: string, depth: nat, files: map<string, File>,
                   ghost mods0: Mods, ghost list0: seq<Ptr>, ghost names: seq<string>, ghost look: Look)
      returns (o: Outcome)
      requires Inv() && AllShallow(frames) && m in mods0 && m in mods && mods[m].loading && depth <= MAXDEPTH
      requires list0 <= list && Kept(mods0, mods, m) && Grown(mods0, mods, files, Kern())
      requires Follows(mods, mods[m].dep, names)
      modifies this, cands
      ensures Inv() && unl == old(unl) && Nested(old(Here()), Here(), o.Intr?)
      ensures list0 <= list && Kept(mods0, mods, m) && Grown(mods0, mods, files, Kern())
      ensures m in mods && mods[m] == old(mods)[m].(dep := mods[m].dep, deps := mods[m].deps)
      ensures o.Done? ==> Follows(mods, mods[m].dep, names + [name])
      ensures CameDep(World(files), name, depth + 1, look, old(mods), mods, o, JamNow(o, old(lost), files))
      ensures BySystem(old(looked), looked)
      decreases MAXDEPTH + 1 - depth, 1
    {
      hide BySystem;
      hide Linked, Numbered, Sound, Idle, Finished, Grown, Kept, Follows, LastComp, Nested, Came, CameDep, JamNow;
      hide AllShallow, SameNames;
      ghost var before, here := mods, Here();
      var r := LoadNext(m, name, depth, files, mods0, list0, names, look);
      if !r.Loaded? {
        return if r.Failed? then Err(EINVAL) else Intr;
      }
      ghost var mid := mods;
      JamNone(here, Done, files);
      TakeDep(m, r.m, name, files, mods0, names);
      JamNone(here, Done, files);
      CameOn(World(files), name, depth + 1, look, before, mid, mods, Done, NoJam);
      return Done;
    }

    // ... loaded, with what was there before the first dependency
    method LoadNext(m: Ptr, name: string, depth: nat, files: map<string, File>,
                    ghost mods0: Mods, ghost list0: seq<Ptr>, ghost names: seq<string>, ghost look: Look)
      returns (r: LoadResult)
      requires Inv() && AllShallow(frames) && m in mods0 && m in mods && depth <= MAXDEPTH
      requires list0 <= list && Kept(mods0, mods, m) && Grown(mods0, mods, files, Kern())
      requires Follows(mods, mods[m].dep, names)
      modifies this, cands
      ensures Inv() && unl == old(unl) && Nested(old(Here()), Here(), r.Interrupted?)
      ensures list0 <= list && Kept(mods0, mods, m) && Grown(mods0, mods, files, Kern())
      ensures m in mods && mods[m] == old(mods)[m].(deps := mods[m].deps) && Follows(mods, mods[m].dep, names)
      ensures r.Loaded? ==> r.m in mods && !mods[r.m].loading && mods[r.m].name == LastComp(name)
      ensures var o := if r.Failed? then Err(EINVAL) else Out(r);
        CameDep(World(files), name, depth + 1, look, old(mods), mods, o, JamNow(o, old(lost), files))
      ensures BySystem(old(looked), looked)
      decreases MAXDEPTH + 1 - depth, 0, 1
    {
      hide BySystem, AllShallow;
      hide Linked, Numbered, Sound, Idle, Finished, Grown, Kept, Follows, LastComp, Nested, Came, CameDep, JamNow;
      ghost var before := mods;
      InvFacts();
      r := LoadDep(name, depth, files, look);
      InvFacts();
      KeptThrough(mods0, before, mods, m);
      GrownTrans(mods0, before, mods, NULL, files, Kern());
      FollowsKept(before, mods, before[m].dep, names);
    }

    // dlm_load of a dependency
    method LoadDep(name: string, depth: nat, files: map<string, File>, ghost look: Look) returns (r: LoadResult)
      requires Inv() && AllShallow(frames) && depth <= MAXDEPTH
      modifies this, cands
      ensures Inv() && unl == old(unl) && Nested(old(Here()), Here(), r.Interrupted?)
      ensures old(list) <= list && Kept(old(mods), mods, NULL) && Grown(old(mods), mods, files, Kern())
      ensures r.Loaded? ==> r.m in mods && !mods[r.m].loading && mods[r.m].name == LastComp(name)
      ensures var o := if r.Failed? then Err(EINVAL) else Out(r);
        CameDep(World(files), name, depth + 1, look, old(mods), mods, o, JamNow(o, old(lost), files))
      ensures BySystem(old(looked), looked)
      decreases MAXDEPTH + 1 - depth, 0, 0
    {
      hide LookedUp, BySystem;
      hide Linked, Numbered, Sound, Idle, Finished, Grown, Kept, LastComp, Nested, Came, CameDep, JamNow, AllShallow;
      ghost var before, here := mods, Here();
      ghost var looked0 := looked;
      r := Load(name, true, false, depth + 1, files, look);
      SystemLooked(looked0, looked, name);
      InvFacts();
      JamNone(here, Out(r), files);
      JamNone(here, Err(EINVAL), files);
      CameSame(World(files), name, depth + 1, look, before, mods, Out(r), JamNow(Out(r), here.lost, files));
    }

    // the dependency is loaded: it is counted and entered
    method TakeDep(m: Ptr, d: Ptr, name: string, ghost files: map<string, File>, ghost mods0: Mods,
                   ghost names: seq<string>)
      requires Inv() && m in mods0 && m in mods && mods[m].loading && d in mods && !mods[d].loading
      requires Kept(mods0, mods, m) && Grown(mods0, mods, files, Kern())
      requires Follows(mods, mods[m].dep, names) && mods[d].name == LastComp(name)
      modifies this`mods, cands
      ensures Inv() && SameNames(old(mods), mods)
      ensures Kept(mods0, mods, m) && Grown(mods0, mods, files, Kern())
      ensures m in mods && mods[m] == old(mods)[m].(dep := mods[m].dep, deps := mods[m].deps)
      ensures Follows(mods, mods[m].dep, names + [name])
    {
      hide Linked, Numbered, Sound, Idle, Finished, Grown, Kept, Follows, LastComp, SameNames;
      InvFacts();
      ghost var mid := mods;
      Depend(m, d);
      DependKeeps(mods0, mid, mods, m, d, files, Kern(), names, name);
      DependNames(mid, mods, m, d);
    }

    // where no load has been interrupted, nothing is left undone
    lemma JamNone(s0: Stand, o: Outcome, files: map<string, File>)
      requires AllShallow(s0.frames)
      ensures Nested(s0, Here(), false) ==> JamNow(o, s0.lost, files) == NoJam
      ensures Nested(s0, Here(), false) ==> Here() == s0
    {
    }

    // load and count the named dependencies, in order
    method FillDeps(m: Ptr, deps: seq<string>, depth: nat, files: map<string, File>, ghost look: Look)
      returns (o: Outcome)
      requires Inv() && AllShallow(frames) && m in mods && mods[m].loading && mods[m].dep == [] && depth <= MAXDEPTH
      modifies this, cands
      ensures Inv() && unl == old(unl) && Nested(old(Here()), Here(), o.Intr?)
      ensures old(list) <= list && Kept(old(mods), mods, m) && Grown(old(mods), mods, files, Kern())
      ensures m in mods && mods[m] == old(mods)[m].(dep := mods[m].dep, deps := mods[m].deps)
      ensures o.Done? ==> Follows(mods, mods[m].dep, Wanted(deps, statics))
      ensures var jam := JamNow(o, old(lost), files);
        CameAll(World(files), Wanted(deps, statics), depth + 1, look, old(mods), mods, o, jam)
      ensures BySystem(old(looked), looked)
      decreases MAXDEPTH + 1 - depth, 2
    {
      hide BySystem;
      hide Linked, Numbered, Sound, Finished, Grown, Idle, LastComp, Nested, CameDep, CameAll, TryAll, Wanted;
      hide JamNow, AllShallow;
      ghost var looked0 := looked;
      SystemNone(looked);
      ghost var env, here := World(files), Here();
      CameNone(env, depth + 1, look, mods);
      NestedSame(here, false);
      GrownRefl(mods, files, Kern());
      assert deps[..0] == [];
      WantedNone(statics);
      for k := 0 to |deps|
        invariant Inv() && unl == old(unl) && Here() == here && Nested(here, Here(), false)
        invariant BySystem(looked0, looked)
        invariant old(list) <= list && Kept(old(mods), mods, m) && Grown(old(mods), mods, files, Kern())
        invariant m in mods && mods[m] == old(mods)[m].(dep := mods[m].dep, deps := mods[m].deps)
        invariant Follows(mods, mods[m].dep, Wanted(deps[..k], statics))
        invariant CameAll(env, Wanted(deps[..k], statics), depth + 1, look, old(mods), mods, Done, NoJam)
      {
        WantedSnoc(deps, statics, k);
        if deps[k] !in statics {
          ghost var front, mid := Wanted(deps[..k], statics), mods;
          ghost var l := TryAll(env, front, depth + 1, look).look;
          ghost var looked1 := looked;
          o := FillDep(m, deps[k], depth, files, old(mods), old(list), front, l);
          SystemOn(looked0, looked1, looked);
          if !o.Done? {
            CameStop(env, deps, k, depth + 1, look, old(mods), mid, mods, o, JamNow(o, here.lost, files));
            return;
          }
          JamNone(here, Done, files);
          CameSnoc(env, front, deps[k], depth + 1, look, old(mods), mid, mods, o, NoJam);
        } else {
          assert Wanted(deps[..k + 1], statics) == Wanted(deps[..k], statics);
        }
      }
      assert deps[..|deps|] == deps;
      JamNone(here, Done, files);
      return Done;
    }

    /** dlm_load.  Loaded: the record has settled, and if it is new it went through
        every stage.  Failed: nothing of this load is left in progress.  In every
        case the records that were there keep everything but the counts that new
        dependents add, and the new records have finished unless a frame still
        names them, or named them before their undoing was cut short. */
    method Load(path: string, sys: bool, demand: bool, depth: nat, files: map<string, File>, ghost look: Look)
      returns (r: LoadResult)
      requires Inv() && AllShallow(frames)
      modifies this, cands
      ensures Inv() && unl == old(unl) && Nested(old(Here()), Here(), r.Interrupted?)
      ensures old(list) <= list && Kept(old(mods), mods, if r.Loaded? && demand then r.m else NULL)
      ensures Grown(old(mods), Bare(mods, if r.Loaded? && demand then r.m else NULL), files, Kern())
      ensures r.Loaded? ==> r.m in mods && !mods[r.m].loading && mods[r.m].name == LastComp(path)
      ensures r.Loaded? && r.m in old(mods) ==>
        mods == old(mods)[r.m := old(mods)[r.m].(demand := old(mods)[r.m].demand || demand)]
      ensures r.Loaded? && r.m !in old(mods) ==> mods[r.m].path == path && mods[r.m].demand == demand
      ensures r.Loaded? && demand ==> mods[r.m].demand
      ensures Came(World(files), path, depth, look, old(mods), mods, Out(r), JamNow(Out(r), old(lost), files))
      ensures LookedUp(old(looked), looked, path, if sys then System else old(creds))
      decreases if depth > MAXDEPTH then 0 else MAXDEPTH + 1 - depth, 8
    {
      hide LookedUp;
      hide Linked, Numbered, Sound, Idle, Finished, LastComp, Kept, Grown, Nested, Came, SameNames, JamNow, AllShallow;
      LookedNone(looked, path, if sys then System else creds);
      InvFacts();
      KeptRefl(mods, NULL, files, Kern());
      ghost var env, here := World(files), Here();
      NestedSame(here, false);
      if !inited {
        CameRefused(env, path, depth, look, mods, ENOSYS);
        JamNone(here, Err(ENOSYS), files);
        return Failed(ENOSYS);
      }
      var name := LastComp(path);
      if |name| > maxNameLen - 1 {
        CameRefused(env, path, depth, look, mods, ENAMETOOLONG);
        JamNone(here, Err(ENAMETOOLONG), files);
        return Failed(ENAMETOOLONG);
      }
      JamNone(here, Err(EINVAL), files);
      if name == "" || name in statics || depth > MAXDEPTH {
        CameRefused(env, path, depth, look, mods, EINVAL);
        return Failed(EINVAL);
      }
      var m := FindName(name);
      if m != NULL {
        CameFound(env, path, depth, look, mods, mods, m);
        if mods[m].loading || mods[m].unloading {
          return Failed(EINVAL);
        }
        Update(m, mods[m].(demand := mods[m].demand || demand));
        JamNone(here, Done, files);
        FoundKeeps(old(mods), mods, m, demand, files, Kern());
        MarkedNames(old(mods), mods, m);
        CameFound(env, path, depth, look, old(mods), mods, m);
        return Loaded(m);
      }
      r := LoadNew(name, path, sys, demand, depth, files, look);
    }

    // the record of a new module, and its file
    method BeginFill(name: string, path: string, sys: bool, depth: nat, files: map<string, File>, ghost look: Look)
      returns (m: Ptr, o: Outcome, ghost mods1: Mods, ghost here1: Stand, ghost f: Frame)
      requires Inv() && AllShallow(frames) && inited && name == LastComp(path) && depth <= MAXDEPTH
      modifies this, cands
      ensures Inv() && unl == old(unl) && old(list) <= list && m !in old(mods)
      ensures m in mods1 && mods1 == old(mods)[m := mods1[m]] && mods1[m].loading && mods1[m].name == name
      ensures Begun(old(Here()), here1, f) && f.mod == m && Filling(here1, Here(), m, o.Intr?)
      ensures Kept(old(mods), mods, NULL) && Grown(old(mods), mods, files, Kern())
      ensures m in mods && mods[m].loading && !mods[m].demand && !mods[m].unloading && mods[m].name == name
      ensures o.Done? ==> frames != [] && !frames[0].swapped && mods[m].path == path
      ensures o.Done? ==> Finished(mods, m, files, Kern())
      ensures var jam := JamNow(o, old(lost), files);
        CameFile(World(files), path, depth, look[LastComp(path) := true], mods1, mods, o, jam)
      ensures LookedUp(old(looked), looked, path, if sys then System else old(creds))
      decreases MAXDEPTH + 1 - depth, 6, 1
    {
      hide LookedUp, Linked, Numbered, Sound, Idle, Finished, LastComp, Kept, Grown, Filling, CredsAfter, CameFile;
      hide JamNow, AllShallow, Within, Cuts, World, Kern, Raw;
      ghost var fs := frames;
      InvFacts();
      BlankRaw(name, nextid);
      m := Begin(name, sys);
      mods1, here1, f := mods, Here(), frames[0];
      BeginShallow(fs, frames);
      o := Fill(m, path, depth, files, look[LastComp(path) := true]);
      BeginKeeps(old(mods), mods1, mods, m, files, Kern());
    }

    // a module not loaded yet
    method LoadNew(name: string, path: string, sys: bool, demand: bool, depth: nat, files: map<string, File>,
                   ghost look: Look)
      returns (r: LoadResult)
      requires Inv() && AllShallow(frames) && inited && name == LastComp(path) && depth <= MAXDEPTH
      requires 0 < |name| <= maxNameLen - 1 && name !in statics && forall p | p in mods :: mods[p].name != name
      modifies this, cands
      ensures Inv() && unl == old(unl) && Nested(old(Here()), Here(), r.Interrupted?)
      ensures old(list) <= list && Kept(old(mods), mods, if r.Loaded? && demand then r.m else NULL)
      ensures Grown(old(mods), Bare(mods, if r.Loaded? && demand then r.m else NULL), files, Kern())
      ensures r.Loaded? ==> r.m in mods && r.m !in old(mods) && !mods[r.m].loading && mods[r.m].name == name
      ensures r.Loaded? ==> mods[r.m].path == path && mods[r.m].demand == demand
      ensures Came(World(files), path, depth, look, old(mods), mods, Out(r), JamNow(Out(r), old(lost), files))
      ensures LookedUp(old(looked), looked, path, if sys then System else old(creds))
      decreases MAXDEPTH + 1 - depth, 7
    {
      hide LookedUp;
      hide Linked, Numbered, Sound, Idle, Finished, LastComp, Kept, Grown, Nested, Filling, CredsAfter, Came, CameFile;
      hide JamNow, AllShallow, Bare, Within, Cuts, Closed, World, Kern, Fair, Begun;
      ghost var env, here := World(files), Here();
      NewFair(files, path, depth);
      InvFacts();
      var m, o;
      ghost var mods1, here1, f;
      m, o, mods1, here1, f := BeginFill(name, path, sys, depth, files, look);
      ghost var mods2, here2, jam := mods, Here(), JamNow(o, here.lost, files);
      InvFacts();
      BegunFrames(here, here1, f);
      if o.Intr? {
        CameNew(env, path, depth, look, old(mods), mods1, mods, mods, m, o, jam);
        BegunNested(here, here1, here2, Here(), f, true);
        BareNone(mods);
        return Interrupted;
      }
      FillFacts(here1, m, files, o);
      if o.Err? {
        var cut := UndoNew(files, old(mods), old(list));
        BegunNested(here, here1, here2, Here(), f, false);
        if cut {
          CutNames(mods2, mods, m);
          CameNew(env, path, depth, look, old(mods), mods1, mods2, mods, m, o, jam);
          LostJam(here.lost, files);
          return Interrupted;
        }
        CameNew(env, path, depth, look, old(mods), mods1, mods2, mods, m, o, jam);
        JamNone(here, o, files);
        return Failed(o.e);
      }
      SettleNew(m, demand, files, old(mods));
      BegunNested(here, here1, here2, Here(), f, false);
      CameNew(env, path, depth, look, old(mods), mods1, mods2, mods, m, o, jam);
      JamNone(here, Done, files);
      return Loaded(m);
    }

    lemma {:induction false} NewFair(files: map<string, File>, path: string, depth: nat)
      requires inited && 0 < |LastComp(path)| <= maxNameLen - 1 && LastComp(path) !in statics && depth <= MAXDEPTH
      ensures Fair(World(files), path, depth)
    {
    }

    // a record that has finished settles
    method SettleNew(m: Ptr, demand: bool, ghost files: map<string, File>, ghost mods0: Mods)
      requires Inv() && frames != [] && frames[0].mod == m && m in mods && mods[m].loading && !frames[0].swapped
      requires Kept(mods0, mods, NULL) && Grown(mods0, mods, files, Kern()) && Finished(mods, m, files, Kern())
      requires NULL !in mods0 && m !in mods0
      modifies this`mods, this`frames, this`rank, this`clock
      ensures Inv() && frames == old(frames)[1..]
      ensures mods == old(mods)[m := old(mods)[m].(loading := false, demand := demand)]
      ensures creds == Closed(old(frames)[0], old(creds))
      ensures Kept(mods0, mods, if demand then m else NULL)
      ensures Grown(mods0, Bare(mods, if demand then m else NULL), files, Kern())
    {
      hide Linked, Numbered, Sound, Idle, Finished, Kept, Grown, CredsAfter, Bare;
      InvFacts();
      ghost var mods2 := mods;
      FinishedRested(mods, m, files, Kern());
      Settle(m, demand);
      SettleKeeps(mods0, mods2, mods, m, demand, files, Kern());
      KeptWeaken(mods0, mods, m);
    }

    // the chain after a file is through or has failed
    lemma FillFacts(s: Stand, m: Ptr, files: map<string, File>, o: Outcome)
      requires s.frames != [] && Filling(s, Here(), m, false)
      ensures frames != [] && frames[0].mod == m && lost == s.lost && frames[1..] == s.frames[1..]
      ensures JamNow(o, s.lost, files) == if !o.Done? && Cuts(files) then Next else NoJam
    {
    }

    lemma LostJam(lost0: seq<Frame>, files: map<string, File>)
      requires |lost| == |lost0| + 1
      ensures JamNow(Intr, lost0, files) == Lost
    {
    }

    // no file at the path: nothing has happened
    lemma FillNoFile(m: Ptr, path: string, depth: nat, files: map<string, File>, look: Look, o: Outcome)
      requires Inv() && AllShallow(frames) && frames != [] && frames[0].mod == m && depth <= MAXDEPTH && m in mods
      requires path !in files || !files[path].find.Done?
      requires o == if path in files then files[path].find else Err(ENOENT)
      ensures Filling(Here(), Here(), m, o.Intr?) && Kept(mods, mods, m) && Grown(mods, mods, files, Kern())
      ensures CameFile(World(files), path, depth, look, mods, mods, o, JamNow(o, lost, files))
    {
      hide Linked, Numbered, Sound, Idle, Grown, Kept, Filling, CameFile, JamNow, AllShallow;
      InvFacts();
      KeptRefl(mods, m, files, Kern());
      FillingSame(Here(), m, o.Intr?);
      NestedSame(Here(), false);
      CameNoFile(World(files), path, depth, look, mods, o);
      JamNone(Here(), o, files);
    }

    // everything from the file to the installed linkages
    method Fill(m: Ptr, path: string, depth: nat, files: map<string, File>, ghost look: Look)
      returns (o: Outcome)
      requires Inv() && AllShallow(frames) && frames != [] && frames[0].mod == m && depth <= MAXDEPTH
      requires m in mods && Raw(mods[m])
      requires mods[m].name == LastComp(path)
      modifies this, cands
      ensures Inv() && unl == old(unl) && Filling(old(Here()), Here(), m, o.Intr?)
      ensures old(list) <= list && Kept(old(mods), mods, m) && Grown(old(mods), mods, files, Kern())
      ensures m in mods && mods[m].loading && mods[m].demand == old(mods)[m].demand && mods[m].name == old(mods)[m].name
      ensures o.Done? ==> frames != [] && !frames[0].swapped && mods[m].path == path
      ensures o.Done? ==> Finished(mods, m, files, Kern())
      ensures !mods[m].unloading
      ensures CameFile(World(files), path, depth, look, old(mods), mods, o, JamNow(o, old(lost), files))
      ensures LookedUp(old(looked), looked, path, old(creds))
      decreases MAXDEPTH + 1 - depth, 6, 0
    {
      hide LookedUp, BySystem;
      hide Linked, Numbered, Sound, Idle, LastComp, Wanted, Grown, Kept, Follows, Finished, Filling, CameFile;
      hide JamNow, AllShallow;
      hide World;
      ghost var looked0, who := looked, creds;
      looked := looked + [(path, creds)];
      SystemNone(looked);
      if path !in files || !files[path].find.Done? {
        o := if path in files then files[path].find else Err(ENOENT);
        FillNoFile(m, path, depth, files, look, o);
      } else {
        o := FillFrom(m, path, depth, files, look);
      }
      LookedFirst(looked0, looked, path, who);
    }

    // ... from the file that is there
    method FillFrom(m: Ptr, path: string, depth: nat, files: map<string, File>, ghost look: Look)
      returns (o: Outcome)
      requires Inv() && AllShallow(frames) && frames != [] && frames[0].mod == m && depth <= MAXDEPTH
      requires m in mods && Raw(mods[m])
      requires mods[m].name == LastComp(path)
      requires path in files && files[path].find.Done?
      modifies this, cands
      ensures Inv() && unl == old(unl) && Filling(old(Here()), Here(), m, o.Intr?)
      ensures old(list) <= list && Kept(old(mods), mods, m) && Grown(old(mods), mods, files, Kern())
      ensures m in mods && mods[m].loading && mods[m].demand == old(mods)[m].demand && mods[m].name == old(mods)[m].name
      ensures o.Done? ==> frames != [] && !frames[0].swapped && mods[m].path == path
      ensures o.Done? ==> Finished(mods, m, files, Kern())
      ensures !mods[m].unloading
      ensures CameFile(World(files), path, depth, look, old(mods), mods, o, JamNow(o, old(lost), files))
      ensures BySystem(old(looked), looked)
      decreases MAXDEPTH + 1 - depth, 5
    {
      hide BySystem;
      hide Linked, Numbered, Sound, Idle, LastComp, Wanted, Grown, Kept, Follows, Finished, Filling, CameFile;
      hide JamNow, AllShallow;
      hide World;
      InvFacts();
      ghost var here := Here();
      FillingSame(here, m, true);
      FillingSame(here, m, false);
      Update(m, mods[m].(path := path));
      ghost var mods1 := mods;
      OwnKeeps(old(mods), old(mods), mods1, m, files, Kern(), []);
      o := FillBody(m, path, depth, files, look);
      PathNames(old(mods), mods1, m);
      CameLater(World(files), path, depth, look, old(mods), mods1, mods, o, JamNow(o, here.lost, files));
      KeptTrans(old(mods), mods1, mods, m);
      InvFacts();
      FilledGrown(old(mods), mods1, mods, m, files, Kern());
    }

    // headers and dependencies, then the image
    method FillBody(m: Ptr, path: string, depth: nat, files: map<string, File>, ghost look: Look)
      returns (o: Outcome)
      requires Inv() && AllShallow(frames) && frames != [] && frames[0].mod == m && depth <= MAXDEPTH
      requires m in mods && Raw(mods[m])
      requires mods[m].name == LastComp(path) && mods[m].path == path && path in files
      requires files[path].find.Done?
      modifies this, cands
      ensures Inv() && unl == old(unl) && Filling(old(Here()), Here(), m, o.Intr?)
      ensures old(list) <= list && Kept(old(mods), mods, m) && Grown(old(mods), mods, files, Kern())
      ensures m in mods && mods[m].loading && mods[m].demand == old(mods)[m].demand && mods[m].name == old(mods)[m].name
      ensures o.Done? ==> frames != [] && !frames[0].swapped && mods[m].path == path
      ensures o.Done? ==> Finished(mods, m, files, Kern())
      ensures !mods[m].unloading
      ensures CameFile(World(files), path, depth, look, old(mods), mods, o, JamNow(o, old(lost), files))
      ensures BySystem(old(looked), looked)
      decreases MAXDEPTH + 1 - depth, 4
    {
      hide BySystem;
      hide Linked, Numbered, Sound, Idle, LastComp, Wanted, Grown, Kept, Follows, Finished, Filling, CameFile;
      hide JamNow, AllShallow;
      SystemNone(looked);
      KeptRefl(mods, m, files, Kern());
      ghost var here := Here();
      FillingSame(here, m, true);
      FillingSame(here, m, false);
      NestedSame(here, false);
      var f := files[path];
      if !f.hdr.Done? {
        CameBadFile(World(files), path, depth, look, mods, f.hdr);
        JamNone(here, f.hdr, files);
        return f.hdr;
      }
      if !f.depsOk {
        CameBadFile(World(files), path, depth, look, mods, Err(EINVAL));
        JamNone(here, Err(EINVAL), files);
        return Err(EINVAL);
      }
      o := FillRest(m, path, depth, files, look);
    }

    // dependencies, then the image
    method FillRest(m: Ptr, path: string, depth: nat, files: map<string, File>, ghost look: Look)
      returns (o: Outcome)
      requires Inv() && AllShallow(frames) && frames != [] && frames[0].mod == m && depth <= MAXDEPTH
      requires m in mods && Raw(mods[m])
      requires mods[m].name == LastComp(path) && mods[m].path == path && path in files
      requires files[path].find.Done? && files[path].hdr.Done? && files[path].depsOk
      modifies this, cands
      ensures Inv() && unl == old(unl) && Filling(old(Here()), Here(), m, o.Intr?)
      ensures old(list) <= list && Kept(old(mods), mods, m) && Grown(old(mods), mods, files, Kern())
      ensures m in mods && mods[m].loading && mods[m].demand == old(mods)[m].demand && mods[m].name == old(mods)[m].name
      ensures o.Done? ==> frames != [] && !frames[0].swapped && mods[m].path == path
      ensures o.Done? ==> Finished(mods, m, files, Kern())
      ensures !mods[m].unloading
      ensures CameFile(World(files), path, depth, look, old(mods), mods, o, JamNow(o, old(lost), files))
      ensures BySystem(old(looked), looked)
      decreases MAXDEPTH + 1 - depth, 3
    {
      hide BySystem;
      hide Linked, Numbered, Sound, Idle, LastComp, Wanted, Grown, Kept, Follows, Finished, Nested, Filling, CredsAfter;
      hide CameFile, CameAll, SameNames, Stages, OnlyOwn, JamNow, AllShallow, Jams, Entered;
      SystemNone(looked);
      ghost var env, here := World(files), Here();
      var f := files[path];
      o := FillDeps(m, f.deps, depth, files, look);
      NestedFilling(here, Here(), m, o.Intr?);
      InvFacts();
      if o.Done? {
        ghost var mods2 := mods;
        JamNone(here, Done, files);
        o := FillImage(m, f);
        FillingOn(here, Here(), m, o.Intr?);
        OwnKeeps(old(mods), mods2, mods, m, files, Kern(), Wanted(f.deps, statics));
        OwnNames(mods2, mods, m);
        CameStages(env, path, depth, look, old(mods), mods2, mods, o);
        JamImage(m, path, files, o);
        if o.Done? {
          FinishedIntro(mods, m, path, files, Kern());
        }
      } else {
        CameNoDeps(env, path, depth, look, old(mods), mods, o, JamNow(o, here.lost, files));
      }
    }

    // whether the undoing will be cut short is written in the file
    lemma JamImage(m: Ptr, path: string, files: map<string, File>, o: Outcome)
      requires frames != [] && frames[0].mod == m && m in mods && mods[m].path == path && path in files
      requires o == Stages(files[path]) && (frames[0].loaded <==> Entered(files[path]))
      ensures JamNow(o, lost, files) == if Jams(files[path]) then Next else NoJam
    {
    }

    // the image, the wrapper, the load entry and the linkages: only the record itself changes
    method FillImage(m: Ptr, f: File) returns (o: Outcome)
      requires Inv() && AllShallow(frames) && frames != [] && frames[0].mod == m
      requires m in mods && mods[m].loading && mods[m].nlink == 0
      modifies this`mods, this`links, this`frames, this`creds, cands
      ensures Inv() && frames != [] && frames[0].mod == m && frames[1..] == old(frames)[1..]
      ensures CredsAfter(frames, creds) == CredsAfter(old(frames), old(creds))
      ensures Closed(frames[0], creds) == Closed(old(frames)[0], old(creds))
      ensures OnlyOwn(old(mods), mods, m)
      ensures mods[m] == old(mods)[m].(symok := mods[m].symok, locked := mods[m].locked, nlink := mods[m].nlink)
      ensures o.Done? ==> !frames[0].swapped && mods[m].symok && mods[m].nlink == |f.install|
      ensures o.Done? ==> f.image.Done? && f.wrap.Done? && f.entry.Done? && mods[m].locked == prflock
      ensures o.Done? ==> forall i | 0 <= i < |f.install| :: f.install[i].Done?
      ensures o == Stages(f) && (frames[0].loaded <==> Entered(f))
    {
      hide Linked, Numbered, Sound, Idle, CredsAfter, FirstBad;
      if !f.image.Done? {
        assert mods == mods[m := mods[m]];
        return f.image;
      }
      Update(m, mods[m].(symok := true));
      CloseFile();
      if !f.wrap.Done? {
        return f.wrap;
      }
      o := FillEntry(m, f);
    }

    // the load entry and the linkages
    method FillEntry(m: Ptr, f: File) returns (o: Outcome)
      requires Inv() && AllShallow(frames) && frames != [] && frames[0].mod == m
      requires m in mods && mods[m].loading && mods[m].nlink == 0 && f.image.Done? && f.wrap.Done?
      modifies this`mods, this`links, this`frames
      ensures Inv() && frames == [old(frames)[0].(loaded := f.entry.Done?)] + old(frames)[1..]
      ensures CredsAfter(frames, creds) == CredsAfter(old(frames), creds)
      ensures OnlyOwn(old(mods), mods, m)
      ensures mods[m] == old(mods)[m].(locked := prflock, nlink := mods[m].nlink)
      ensures o.Done? ==> f.entry.Done? && mods[m].nlink == |f.install|
      ensures o.Done? ==> forall i | 0 <= i < |f.install| :: f.install[i].Done?
      ensures o == Stages(f)
    {
      hide Linked, Numbered, Sound, Idle, CredsAfter, FirstBad, Stages;
      EntryStages(f);
      Update(m, mods[m].(locked := prflock));
      if !f.entry.Done? {
        assert frames == [frames[0].(loaded := false)] + frames[1..];
        return f.entry;
      }
      EnterLoaded();
      o := FillLinks(m, f.install);
    }

    /** modload(2): a load under a guard of its own.  Every record that was there keeps its place, its
        linkages and its references, and its dependency count has grown by exactly the entries of the
        records this call added.  Nothing the call began is left in progress, and the caller has its
        credentials and root back, exactly when no load it had to undo is past its load entry with an
        unload entry that is interrupted; the function on names says whether one is. */
    method Modload(path: string, files: map<string, File>) returns (r: LoadResult)
      requires Inv() && frames == []
      modifies this, cands
      ensures Inv() && frames == [] && unl == old(unl) && Within(old(lost), lost)
      ensures lost == old(lost) ==> creds == old(creds) && OldLoading(old(mods), mods)
      ensures Kept(old(mods), mods, if r.Loaded? then r.m else NULL)
      ensures old(list) <= list && Grown(old(mods), Bare(mods, if r.Loaded? then r.m else NULL), files, Kern())
      ensures Grew(old(list), old(mods), list, mods)
      ensures r.Loaded? ==> r.m in mods && mods[r.m].name == LastComp(path) && mods[r.m].demand
      ensures r.Loaded? && r.m in old(mods) ==> mods == old(mods)[r.m := old(mods)[r.m].(demand := true)]
      ensures r.Loaded? && r.m !in old(mods) ==> mods[r.m].path == path
      ensures Unique(old(mods)) ==> Unique(mods) && Out(r) == Try(World(files), path, 1, LookOf(old(mods))).out
      ensures Unique(old(mods)) && !r.Interrupted? ==>
        LookOf(mods) == Try(World(files), path, 1, LookOf(old(mods))).look
      ensures Unique(old(mods)) ==> (lost == old(lost) <==> Try(World(files), path, 1, LookOf(old(mods))).jam.NoJam?)
      ensures LookedUp(old(looked), looked, path, old(creds))
    {
      hide LookedUp;
      hide Linked, Numbered, Sound, Listed, Counted, DepsSettled, Idle, Finished, LastComp, Kept, Grown, Grew, Within;
      hide Try, Unique, Came, OldLoading, LoadingIn, Bare;
      ghost var mods0, list0, lost0 := mods, list, lost;
      InvFacts();
      LoadingLost();
      ghost var look := LookOf(mods);
      r := Load(path, false, true, 1, files, look);
      ghost var jam := JamNow(Out(r), lost0, files);
      CameUnique(World(files), path, 1, look, mods0, mods, Out(r), jam);
      if r.Interrupted? {
        InvFacts();
        BareNone(mods);
        NewFrames(mods0, lost0);
        ghost var lost1 := lost;
        var cut := AbortLoads(mods0, list0, files);
        WithinTwice(lost0, lost1, lost);
      }
      CallOver(mods0, list0, lost0, if r.Loaded? then r.m else NULL);
    }

    // once nothing is in progress, the counts have grown by the new entries
    lemma CallOver(mods0: Mods, list0: seq<Ptr>, lost0: seq<Frame>, m: Ptr)
      requires Inv() && frames == [] && Listed(list0, mods0) && Counted(list0, mods0) && list0 <= list
      requires Kept(mods0, mods, m) && (m in mods0 ==> mods == mods0[m := mods0[m].(demand := true)])
      requires forall f | f in lost0 :: f.mod in mods0 && mods0[f.mod].loading
      ensures Grew(list0, mods0, list, mods) && Bare(mods, NULL) == mods
      ensures lost == lost0 ==> OldLoading(mods0, mods)
    {
      hide Linked, Numbered, Listed, Counted, DepsSettled, Idle, Kept, Grew, OldLoading, LoadingIn;
      LoadingLost();
      InvFacts();
      BareNone(mods);
      KeptDep(mods0, mods, m);
      DepsGrew(list0, mods0, list, mods);
      StillLoading(mods0, mods, m, lost0, lost);
    }

    // with no load in progress, only lost records are loading
    lemma LoadingLost()
      requires Inv() && frames == []
      ensures LoadingIn(mods, lost) && Counted(list, mods)
      ensures forall f | f in lost :: f.mod in mods && mods[f.mod].loading
    {
      assert frames + lost == lost;
    }

    // the loads in progress are of records the call began
    lemma NewFrames(mods0: Mods, lost0: seq<Frame>)
      requires Inv() && Kept(mods0, mods, NULL) && NULL !in mods0 && LoadingIn(mods0, lost0) && Within(lost0, lost)
      ensures forall f | f in frames :: f.mod !in mods0
    {
      ChainApart(mods, frames, lost, lost0);
      forall f | f in frames ensures f.mod in mods && mods[f.mod].loading {
        var i :| 0 <= i < |frames| && frames[i] == f;
        assert (frames + lost)[i] == f;
      }
    }

    // put the first n linkages back; a linkage that does not install panics
    method Relink(m: Ptr, n: nat, ok: bool) returns (panic: bool)
      requires Installed(mods, links) && m in mods && mods[m].nlink == 0
      modifies this`mods, this`links
      ensures !panic ==> Installed(mods, links) && OnlyOwn(old(mods), mods, m)
      ensures !panic ==> mods[m] == old(mods)[m].(nlink := n)
      ensures panic ==> !ok && n > 0
    {
      if n > 0 && !ok {
        return true;
      }
      var o := LinkInstallAll(m, seq(n, i => Done));
      return !o.Done?;
    }

    // the record as before the attempt to unload it
    method PutBack(m: Ptr, n: nat, ok: bool, ghost mods0: Mods, ghost links0: set<(Ptr, nat)>) returns (panic: bool)
      requires m in mods0 && mods0[m].nlink == n && !mods0[m].unloading
      requires mods == mods0[m := mods0[m].(unloading := true, nlink := 0)]
      requires Installed(mods, links) && Installed(mods0, links0)
      modifies this`mods, this`links
      ensures panic ==> !ok && n > 0
      ensures !panic ==> mods == mods0 && links == links0
    {
      hide Installed;
      panic := Relink(m, n, ok);
      if !panic {
        ghost var mid := mods;
        mods := mods[m := mods[m].(unloading := false)];
        assert mods == mods0;
        InstalledFrame(mid, mods, links, m);
        InstalledUnique(mods, links0, links);
      }
    }

    // free a settled record whose linkages are gone; mods1 is the heap while they were installed
    method FreeUnlinked(m: Ptr, ghost mods1: Mods)
      requires cands.Valid() && cands.links.Keys == mods1.Keys && Idle(cands.cs, mods1) && maxNameLen > 0
      requires Listed(list, mods1) && Counted(list, mods1) && DepsSettled(mods1) && Ranked(mods1, rank, clock)
      requires Framed(mods1, frames + lost) && Shallow(frames) && Installed(mods, links)
      requires Numbered(mods1, owner, nextid)
      requires m in mods1 && !mods1[m].loading && mods1[m].deps == 0 && mods == mods1[m := mods1[m].(nlink := 0)]
      modifies this`mods, this`list, cands
      ensures Inv() && mods.Keys == mods1.Keys - {m} && Kept(mods1, mods, m) && list == Without(old(list), m)
    {
      hide Linked, Numbered, Listed, Counted, DepsSettled, Ranked, Framed, Idle, Installed;
      UnlinkedKeeps(list, mods1, mods, m, rank, clock, cands.cs);
      ghost var mid := mods;
      FreeMod(m);
      FreedInstalled(mid, mid, mods, m, links);
      FreedFramed(mods1, mods, frames + lost, m);
      FreedIds(mods1, mods, m, owner, nextid);
    }

    /** dlm_unload of the record m, whose unload entry answers entry.  The abort that
        follows an interrupted entry is part of it. */
    method Unload(m: Ptr, auto: bool, entry: Outcome, relinkOk: bool) returns (r: UnloadResult)
      requires Inv() && m in mods && unl == NULL
      modifies this, cands
      ensures !r.Panic? ==> Inv() && unl == NULL && frames == old(frames) && creds == old(creds) && lost == old(lost)
      ensures r.Unloaded? <==> !(auto && old(mods)[m].demand) && !Busy(old(mods)[m]) && entry.Done?
      ensures r.UnloadInterrupted? ==> entry.Intr? && !Busy(old(mods)[m])
      ensures r.Panic? ==> !relinkOk && !entry.Done? && !Busy(old(mods)[m]) && old(mods)[m].nlink > 0
      ensures r.Unloaded? ==> mods.Keys == old(mods.Keys) - {m} && Kept(old(mods), mods, m)
      ensures r.Unloaded? ==> list == Without(old(list), m)
      ensures r.Refused? && (Busy(old(mods)[m]) || (auto && old(mods)[m].demand)) ==> r.e == EBUSY
      ensures r.Refused? && !Busy(old(mods)[m]) && !(auto && old(mods)[m].demand) ==> entry.Err? && r.e == entry.e
      ensures r.Refused? || r.UnloadInterrupted? ==>
        mods == old(mods) && list == old(list) && links == old(links) && unchanged(cands)
    {
      hide Linked, Numbered, Sound, Idle, Kept;
      if auto && mods[m].demand {
        return Refused(EBUSY);
      }
      if Busy(mods[m]) {
        return Refused(EBUSY);
      }
      r := Attempt(m, entry, relinkOk);
    }

    // the unload of a record that is not busy
    method Attempt(m: Ptr, entry: Outcome, relinkOk: bool) returns (r: UnloadResult)
      requires Inv() && m in mods && unl == NULL && !Busy(mods[m])
      modifies this, cands
      ensures !r.Panic? ==> Inv() && unl == NULL && frames == old(frames) && creds == old(creds) && lost == old(lost)
      ensures r.Panic? ==> !relinkOk && old(mods)[m].nlink > 0
      ensures !r.Panic? ==> Answers(r, false, entry)
      ensures entry.Done? ==> r.Unloaded?
      ensures r.Unloaded? ==> mods.Keys == old(mods.Keys) - {m} && Kept(old(mods), mods, m)
      ensures r.Unloaded? ==> list == Without(old(list), m)
      ensures r.Refused? || r.UnloadInterrupted? ==>
        mods == old(mods) && list == old(list) && links == old(links) && unchanged(cands)
    {
      hide Linked, Numbered, Listed, Counted, DepsSettled, Ranked, Framed, Idle, Kept, Installed;
      ghost var links0 := links;
      var n := mods[m].nlink;
      Update(m, mods[m].(unloading := true));
      unl, unlnl := m, n;
      ghost var mods1 := mods;
      LinkRemoveAll(m);
      unl := NULL;
      if entry.Done? {
        FreeUnlinked(m, mods1);
        FreedKept(old(mods), mods1, mods, m);
        return Unloaded;
      }
      var panic := PutBack(m, n, relinkOk, old(mods), links0);
      if panic {
        return Panic;
      }
      return if entry.Intr? then UnloadInterrupted else Refused(entry.e);
    }

    // the attempt at the record at index i: it goes, or it is one more record that is stuck
    method UnloadAt(i: nat, answer: Outcome, relinkOk: bool, ghost mods0: Mods, ghost last: map<Ptr, Outcome>)
      returns (u: UnloadResult, asked: bool)
      requires Inv() && unl == NULL && i < |list| && Stuck(list[..i], mods, last)
      requires Shrunk(mods0, mods) && Retained(mods0, mods)
      modifies this, cands
      ensures u.Panic? ==> !relinkOk && asked && !answer.Done?
      ensures u.UnloadInterrupted? ==> asked && answer.Intr?
      ensures !u.Panic? ==> Inv() && frames == old(frames) && unl == NULL && creds == old(creds) && lost == old(lost)
      ensures !u.Panic? ==> Shrunk(mods0, mods) && Retained(mods0, mods)
      ensures asked <==> !Busy(old(mods)[old(list)[i]])
      ensures u.Unloaded? <==> asked && answer.Done?
      ensures u.Unloaded? ==> mods.Keys == old(mods.Keys) - {old(list)[i]} && |list| < |old(list)|
      ensures u.UnloadInterrupted? ==> mods.Keys == old(mods.Keys)
      ensures u.Refused? ==> mods.Keys == old(mods.Keys) && list == old(list) && (asked ==> answer.Err?)
      ensures u.Refused? ==> Stuck(list[..i+1], mods, if asked then last[list[i] := answer] else last)
    {
      hide Linked, Numbered, Sound, Idle, Shrunk, Retained, Kept, Stuck;
      InvFacts();
      var m := list[i];
      asked := !Busy(mods[m]);
      if mods[m].loading || mods[m].unloading {
        StuckStep(mods0, list, mods, mods, last, last, i);
        return Refused(EBUSY), asked;
      }
      ghost var before := mods;
      Update(m, mods[m].(demand := false));
      ghost var mid, listm := mods, list;
      u := Unload(m, false, answer, relinkOk);
      if u.Unloaded? {
        GoneKeeps(mods0, before, mid, mods, m);
        WithoutShorter(listm, m);
      } else if !u.Panic? {
        StuckStep(mods0, list, before, mods, last, if asked then last[m := answer] else last, i);
      }
    }

    // ... and when its entry is called, that is the next asked
    method AskAt(i: nat, answers: seq<Outcome>, j: nat, relinkOk: bool, ghost mods0: Mods,
                 ghost last0: map<Ptr, Outcome>, ghost asks0: seq<Ptr>)
      returns (u: UnloadResult, j': nat, ghost last: map<Ptr, Outcome>, ghost asks: seq<Ptr>)
      requires Inv() && unl == NULL && i < |list| && Stuck(list[..i], mods, last0)
      requires Shrunk(mods0, mods) && Retained(mods0, mods)
      requires Asked(mods0, mods, last0, asks0, answers) && |asks0| == j && NoIntr(answers, j)
      requires (forall p | p in last0 :: last0[p] in answers && last0[p].Err?) && mods.Keys <= mods0.Keys
      modifies this, cands
      ensures u.Panic? ==> !relinkOk && exists a :: a in answers && !a.Done?
      ensures !u.Panic? ==> Inv() && frames == old(frames) && unl == NULL && creds == old(creds) && lost == old(lost)
      ensures !u.Panic? ==> Shrunk(mods0, mods) && Retained(mods0, mods)
      ensures forall p | p in last :: last[p] in answers && last[p].Err?
      ensures !u.Panic? ==> Asked(mods0, mods, last, asks, answers) && |asks| == j'
      ensures if u.UnloadInterrupted? then j' > 0 && Answer(answers, j' - 1).Intr? && NoIntr(answers, j' - 1)
              else !u.Panic? ==> NoIntr(answers, j')
      ensures u.Unloaded? ==> mods.Keys < old(mods.Keys) && |list| < |old(list)| && Stuck([], mods, last)
      ensures u.Refused? ==> mods.Keys == old(mods.Keys) && list == old(list) && Stuck(list[..i+1], mods, last)
    {
      hide Linked, Numbered, Sound, Idle, Shrunk, Retained, Kept, Stuck, Asked, NoIntr, Busy;
      InvFacts();
      ghost var before, m := mods, list[i];
      var asked;
      u, asked := UnloadAt(i, Answer(answers, j), relinkOk, mods0, last0);
      j' := if asked then j + 1 else j;
      if u.Panic? {
        last, asks := last0, asks0;
        return;
      }
      last, asks := AskNext(mods0, before, mods, last0, asks0, answers, m, asked, u);
      if u.Unloaded? {
        AllRetained(mods);
      }
    }

    /** moduload(0).  The unload entries answer one after the other, each attempt as it likes.  The walk
        restarts after every record that goes, and ends because each time one record fewer is left.
        What is left is exactly what was needed, given what was answered since the last restart. */
    method UnloadAll(answers: seq<Outcome>, relinkOk: bool)
      returns (r: UnloadResult, ghost last: map<Ptr, Outcome>, ghost asks: seq<Ptr>)
      requires Inv() && frames == [] && unl == NULL
      modifies this, cands
      ensures r.Panic? ==> !relinkOk && exists a :: a in answers && !a.Done?
      ensures r.UnloadInterrupted? ==> Intr in answers
      ensures !r.Panic? ==> Inv() && frames == [] && unl == NULL && creds == old(creds) && lost == old(lost)
      ensures !r.Panic? ==> Shrunk(old(mods), mods) && Retained(old(mods), mods)
      ensures r.Unloaded? || r.Refused? ==> forall p :: p in mods <==> Needed(old(mods), last, p)
      ensures r.Unloaded? || r.Refused? ==> Unmarked(mods)
      ensures !r.Panic? ==> Asked(old(mods), mods, last, asks, answers)
      ensures r.UnloadInterrupted? ==> asks != [] && Answer(answers, |asks| - 1).Intr? && NoIntr(answers, |asks| - 1)
      ensures r.Unloaded? || r.Refused? ==> NoIntr(answers, |asks|)
      ensures forall p | p in last :: last[p] in answers && last[p].Err?
      ensures r.Unloaded? ==> mods.Keys < old(mods.Keys)
      ensures r.Refused? ==> mods.Keys == old(mods.Keys) && r.e == if old(list) == [] then EINVAL else EBUSY
    {
      hide Linked, Numbered, Sound, Idle, Needed, Shrunk, Retained, Stuck, Asked;
      ghost var mods0 := mods;
      last, asks := map[], [];
      AskedNone(mods, answers);
      AllRetained(mods);
      assert list[..0] == [];
      if list == [] {
        LeftIsNeeded(mods0, last);
        return Refused(EINVAL), last, asks;
      }
      var done, i, j := false, 0, 0;
      while i < |list|
        invariant Inv() && frames == [] && unl == NULL && creds == old(creds) && lost == old(lost)
        invariant 0 <= i <= |list| && 0 <= j
        invariant Shrunk(mods0, mods) && Retained(mods0, mods) && Stuck(list[..i], mods, last)
        invariant Asked(mods0, mods, last, asks, answers) && |asks| == j && NoIntr(answers, j)
        invariant forall p | p in last :: last[p] in answers && last[p].Err?
        invariant if done then mods.Keys < mods0.Keys else mods.Keys == mods0.Keys
        decreases |list|, |list| - i
      {
        var u;
        u, j, last, asks := AskAt(i, answers, j, relinkOk, mods0, last, asks);
        match u {
          case Panic =>
            return Panic, last, asks;
          case UnloadInterrupted =>
            return UnloadInterrupted, last, asks;
          case Unloaded =>
            assert list[..0] == [];
            done, i := true, 0;
          case Refused(_) =>
            i := i + 1;
        }
      }
      assert list[..|list|] == list;
      LeftIsNeeded(mods0, last);
      r := if done then Unloaded else Refused(EBUSY);
    }

    /** Loads that end, and then a sweep in which every unload entry agrees: from a kernel nobody uses a
        module of, all modules go, those that were there and those loaded; but when the kernel locks
        what it loads, all of them stay. */
    method LoadsThenSweep(loads: seq<(string, map<string, File>)>, answers: seq<Outcome>)
      returns (r: UnloadResult, ghost loaded: Mods)
      requires Inv() && frames == [] && unl == NULL && lost == [] && AtRest(mods, prflock)
      requires forall a | a in answers :: a.Done?
      modifies this, cands
      ensures lost == [] ==> r.Unloaded? || r.Refused?
      ensures lost == [] ==> mods.Keys == if prflock then loaded.Keys else {}
      ensures lost == [] ==> forall p | p in old(mods) :: p in loaded
    {
      hide Linked, Numbered, Sound, Idle, Kept, Grown, Grew, Needed, Shrunk, Retained, Try, Unique, Within, OldLoading;
      hide AtRest, Rested, Finished, Bare, Unmarked;
      for i := 0 to |loads|
        invariant Inv() && frames == [] && unl == NULL
        invariant lost == [] ==> AtRest(mods, prflock) && forall p | p in old(mods) :: p in mods
      {
        ghost var mods0, lost0 := mods, lost;
        InvFacts();
        var l := Modload(loads[i].0, loads[i].1);
        WithinNone(lost0, lost);
        if lost == [] {
          LoadAtRest(mods0, mods, if l.Loaded? then l.m else NULL, loads[i].1, Kern());
        }
      }
      loaded := mods;
      ghost var last, asks;
      r, last, asks := UnloadAll(answers, true);
      if lost == [] {
        SweptRest(loaded, mods, last, prflock);
      }
    }

    lemma LeftIsNeeded(mods0: Mods, last: map<Ptr, Outcome>)
      requires Inv() && Shrunk(mods0, mods) && Retained(mods0, mods) && Stuck(list, mods, last)
      ensures Unmarked(mods) && forall p :: p in mods <==> Needed(mods0, last, p)
    {
      forall p | p in mods ensures Needed(mods0, last, p) {
        StuckNeeded(mods0, list, mods, rank, clock, last, p);
      }
      forall p | Needed(mods0, last, p) ensures p in mods {
        var path :| Chain(mods0, last, path) && path[|path|-1] == p;
        NeededStays(mods0, mods, last, path);
      }
    }

    /** moduload(2) of one module, the listed record at index i: the demand mark goes even when the
        unload is refused, and every other record is kept. */
    method UnloadId(id: nat, entry: Outcome, relinkOk: bool) returns (r: UnloadResult, ghost i: nat)
      requires Inv() && unl == NULL
      modifies this, cands
      ensures r.Panic? ==> !relinkOk
      ensures !r.Panic? ==> Inv() && unl == NULL && frames == old(frames) && creds == old(creds) && lost == old(lost)
      ensures !HasId(old(mods), id) ==> r == Refused(EINVAL) && mods == old(mods) && list == old(list)
      ensures HasId(old(mods), id) ==> FirstId(old(list), old(mods), id, i)
      ensures HasId(old(mods), id) ==> OnlyId(old(mods), id, old(list)[i])
      ensures HasId(old(mods), id) && !r.Panic? ==> Dropped(old(mods), mods, old(list)[i], r.Unloaded?)
      ensures HasId(old(mods), id) && !r.Panic? ==>
        list == if r.Unloaded? then Without(old(list), old(list)[i]) else old(list)
      ensures HasId(old(mods), id) && !r.Panic? ==> Answers(r, Busy(old(mods)[old(list)[i]]), entry)
      ensures !r.Panic? && Unique(old(mods)) ==> Unique(mods)
    {
      hide Linked, Numbered, Sound, Idle, Unique;
      InvFacts();
      var k := 0;
      while k < |list| && mods[list[k]].id != id
        invariant 0 <= k <= |list|
        invariant forall j | 0 <= j < k :: mods[list[j]].id != id
      {
        k := k + 1;
      }
      i := k;
      if k == |list| {
        return Refused(EINVAL), i;
      }
      assert FirstId(list, mods, id, i);
      OneId(mods, owner, nextid, id, list[k]);
      r := UnloadOne(list[k], entry, relinkOk);
      if !r.Panic? && Unique(old(mods)) {
        FewerUnique(old(mods), mods);
      }
    }

    method UnloadOne(m: Ptr, entry: Outcome, relinkOk: bool) returns (r: UnloadResult)
      requires Inv() && unl == NULL && m in mods
      modifies this, cands
      ensures r.Panic? ==> !relinkOk
      ensures !r.Panic? ==> Inv() && unl == NULL && frames == old(frames) && creds == old(creds) && lost == old(lost)
      ensures !r.Panic? ==> Dropped(old(mods), mods, m, r.Unloaded?)
      ensures !r.Panic? ==> list == if r.Unloaded? then Without(old(list), m) else old(list)
      ensures !r.Panic? ==> Answers(r, Busy(old(mods)[m]), entry)
    {
      hide Linked, Numbered, Sound, Idle;
      Update(m, mods[m].(demand := false));
      r := Unload(m, false, entry, relinkOk);
    }

    // mod_hold, mod_rele and calls into a module keep the invariant; so does every sequence of calls
    method Step(op: Op) returns (halted: bool)
      requires Inv() && frames == [] && unl == NULL
      modifies this, cands
      ensures !halted ==> Inv() && frames == [] && unl == NULL && Within(old(lost), lost)
      ensures !halted && lost == old(lost) ==> creds == old(creds)
      ensures !halted && Unique(old(mods)) ==> Unique(mods)
    {
      hide Linked, Numbered, Sound, Idle, Kept, Grown, Grew, Needed, Shrunk, Retained, Try, Unique, Within, OldLoading;
      ghost var mods0 := mods;
      WithinLost(lost);
      match op {
        case OpLoad(path, files) =>
          var r := Modload(path, files);
        case OpUnload(id, entry, ok) =>
          ghost var i;
          var r;
          r, i := UnloadId(id, entry, ok);
          return r.Panic?;
        case OpUnloadAll(answers, ok) =>
          ghost var last, asks;
          var r;
          r, last, asks := UnloadAll(answers, ok);
          if !r.Panic? {
            ShrunkUnique(mods0, mods);
          }
          return r.Panic?;
        case OpHold(m) =>
          if m in mods {
            Hold(m);
            OneUnique(mods0, mods, m);
          }
        case OpRele(m) =>
          if m in mods {
            Rele(m);
            OneUnique(mods0, mods, m);
          }
        case OpCall(m, n) =>
          if m in mods {
            Update(m, mods[m].(incall := n));
            OneUnique(mods0, mods, m);
          }
      }
      return false;
    }

    /** Every reachable state: after any sequence of system calls, holds and releases the records,
        the counts, the candidate list, the linkages and the dependency order are consistent. */
    method Run(ops: seq<Op>) returns (halted: bool)
      requires Inv() && frames == [] && unl == NULL && Unique(mods)
      modifies this, cands
      ensures !halted ==> Inv() && frames == [] && unl == NULL && Unique(mods) && LoadingIn(mods, lost)
      ensures !halted && lost == old(lost) ==> creds == old(creds)
    {
      hide Linked, Numbered, Sound, Idle, Unique, Within, LoadingIn;
      ghost var lost0 := lost;
      WithinLost(lost);
      for i := 0 to |ops|
        invariant Inv() && frames == [] && unl == NULL && Unique(mods) && Within(lost0, lost)
        invariant lost == lost0 ==> creds == old(creds)
      {
        ghost var lost1 := lost;
        halted := Step(ops[i]);
        if !halted {
          WithinTwice(lost0, lost1, lost);
        }
        if halted {
          return;
        }
      }
      LoadingLost();
      return false;
    }
  }
}
