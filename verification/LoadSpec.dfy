/**
 What dlm_load answers, as a function of the names alone: which modules are
 there or in transition, what the files say, and how deep the load is.  The
 records, counts, lists and frames of the module core do not come into it.
 */
module LoadSpec {
  import opened CandList
  import opened ModRecords

  // the names of the records, and whether each is loading or unloading
  type Look = map<string, bool>

  datatype Env = Env(inited: bool, statics: set<string>, maxNameLen: nat, files: map<string, File>)

  // what an unload entry that is interrupted while a load is undone does: nothing, it has cut the
  // undoing of a failed load short, or it will cut short the undoing of the innermost one
  datatype Jam = NoJam | Lost | Next

  // an outcome, and the names after it
  datatype Tried = Tried(out: Outcome, look: Look, jam: Jam)

  // the first linkage that does not install
  function FirstBad(install: seq<Outcome>): Outcome {
    if install == [] then Done else if !install[0].Done? then install[0] else FirstBad(install[1..])
  }

  // the stages after the dependencies
  function Stages(f: File): Outcome {
    if !f.image.Done? then f.image
    else if !f.wrap.Done? then f.wrap
    else if !f.entry.Done? then f.entry
    else FirstBad(f.install)
  }

  lemma EntryStages(f: File)
    requires f.image.Done? && f.wrap.Done?
    ensures Stages(f) == if f.entry.Done? then FirstBad(f.install) else f.entry
  {
  }

  // the load entry is over, so that undoing the load calls the unload entry
  predicate Entered(f: File) {
    f.image.Done? && f.wrap.Done? && f.entry.Done?
  }

  // undone, the load of this file is not: its unload entry is interrupted
  predicate Jams(f: File) {
    Entered(f) && !FirstBad(f.install).Done? && f.undo.Intr?
  }

  function Left(depth: nat): nat {
    if depth > MAXDEPTH then 0 else MAXDEPTH + 1 - depth
  }

  // dlm_load of a path
  function Try(env: Env, path: string, depth: nat, look: Look): Tried
    decreases Left(depth), 1, 0
  {
    var name := LastComp(path);
    if !env.inited then Tried(Err(ENOSYS), look, NoJam)
    else if |name| > env.maxNameLen - 1 then Tried(Err(ENAMETOOLONG), look, NoJam)
    else if name == "" || name in env.statics || depth > MAXDEPTH then Tried(Err(EINVAL), look, NoJam)
    else if name in look then Tried(if look[name] then Err(EINVAL) else Done, look, NoJam)
    else
      var t := TryFile(env, path, depth, look[name := true]);
      if t.out.Done? then Tried(Done, t.look[name := false], NoJam)
      else if t.out.Err? && t.jam.Next? then Tried(Intr, t.look, Lost)
      else if t.out.Err? then Tried(t.out, t.look - {name}, NoJam)
      else t
  }

  // everything of a load but its own record
  function TryFile(env: Env, path: string, depth: nat, look: Look): Tried
    requires depth <= MAXDEPTH
    decreases Left(depth), 0, 0
  {
    if path !in env.files then Tried(Err(ENOENT), look, NoJam)
    else
      var f := env.files[path];
      if !f.find.Done? then Tried(f.find, look, NoJam)
      else if !f.hdr.Done? then Tried(f.hdr, look, NoJam)
      else if !f.depsOk then Tried(Err(EINVAL), look, NoJam)
      else
        var t := TryAll(env, Wanted(f.deps, env.statics), depth + 1, look);
        if t.out.Done? then Tried(Stages(f), t.look, if Jams(f) then Next else NoJam) else t
  }

  // the dependencies, in order, up to the first that does not load
  function TryAll(env: Env, deps: seq<string>, depth: nat, look: Look): Tried
    decreases Left(depth), 2, |deps|
  {
    if deps == [] then Tried(Done, look, NoJam)
    else
      var t := TryAll(env, deps[..|deps|-1], depth, look);
      if !t.out.Done? then t
      else
        var u := Try(env, deps[|deps|-1], depth, t.look);
        if u.out.Err? then Tried(Err(EINVAL), u.look, NoJam) else u
  }

  // ----- what follows from the function alone

  ghost predicate Keeps(look: Look, look': Look) {
    forall n | n in look :: n in look' && look'[n] == look[n]
  }

  // no module that was there is lost or changed
  lemma {:induction false} TryKeeps(env: Env, path: string, depth: nat, look: Look)
    ensures Keeps(look, Try(env, path, depth, look).look)
    decreases Left(depth), 1, 0
  {
    var name := LastComp(path);
    if env.inited && depth <= MAXDEPTH && name !in look {
      TryFileKeeps(env, path, depth, look[name := true]);
    }
  }

  lemma {:induction false} TryFileKeeps(env: Env, path: string, depth: nat, look: Look)
    requires depth <= MAXDEPTH
    ensures Keeps(look, TryFile(env, path, depth, look).look)
    decreases Left(depth), 0, 0
  {
    if path in env.files {
      TryAllKeeps(env, Wanted(env.files[path].deps, env.statics), depth + 1, look);
    }
  }

  lemma {:induction false} TryAllKeeps(env: Env, deps: seq<string>, depth: nat, look: Look)
    ensures Keeps(look, TryAll(env, deps, depth, look).look)
    decreases Left(depth), 2, |deps|
  {
    if deps != [] {
      var front := deps[..|deps|-1];
      TryAllKeeps(env, front, depth, look);
      TryKeeps(env, deps[|deps|-1], depth, TryAll(env, front, depth, look).look);
    }
  }

  // none of the names has settled
  ghost predicate Unsettled(doomed: set<string>, look: Look) {
    forall n | n in doomed && n in look :: look[n]
  }

  // every file of one of the names wants one of them, unless a module of that name is being loaded
  ghost predicate Doomed(env: Env, doomed: set<string>, look: Look) {
    forall p | p in env.files && LastComp(p) in doomed ::
      (LastComp(p) in look && look[LastComp(p)]) || Wants(env, p, doomed)
  }

  ghost predicate Wants(env: Env, path: string, names: set<string>)
    requires path in env.files
  {
    exists i :: 0 <= i < |Wanted(env.files[path].deps, env.statics)|
      && LastComp(Wanted(env.files[path].deps, env.statics)[i]) in names
  }

  lemma DoomedStays(env: Env, doomed: set<string>, look: Look, look': Look)
    requires Doomed(env, doomed, look) && Keeps(look, look')
    ensures Doomed(env, doomed, look')
  {
  }

  /** No load goes in a circle, however long: when every file of a set of names wants a name of the set,
      or a module of the name is being loaded already, none of the names ever settles. */
  lemma {:induction false} CircleRefused(env: Env, path: string, depth: nat, look: Look, doomed: set<string>)
    requires Doomed(env, doomed, look) && Unsettled(doomed, look)
    ensures Unsettled(doomed, Try(env, path, depth, look).look)
    ensures LastComp(path) in doomed ==> !Try(env, path, depth, look).out.Done?
    decreases Left(depth), 1, 0
  {
    var name := LastComp(path);
    if env.inited && depth <= MAXDEPTH && name !in look {
      assert Keeps(look, look[name := true]);
      DoomedStays(env, doomed, look, look[name := true]);
      CircleFile(env, path, depth, look[name := true], doomed, name in doomed);
    }
  }

  lemma {:induction false} CircleFile(env: Env, path: string, depth: nat, look: Look, doomed: set<string>, own: bool)
    requires depth <= MAXDEPTH && Doomed(env, doomed, look) && Unsettled(doomed, look)
    requires own ==> path in env.files ==> Wants(env, path, doomed)
    ensures Unsettled(doomed, TryFile(env, path, depth, look).look)
    ensures own ==> !TryFile(env, path, depth, look).out.Done?
    decreases Left(depth), 0, 0
  {
    if path in env.files {
      CircleAll(env, Wanted(env.files[path].deps, env.statics), depth + 1, look, doomed);
    }
  }

  lemma {:induction false} CircleAll(env: Env, deps: seq<string>, depth: nat, look: Look, doomed: set<string>)
    requires Doomed(env, doomed, look) && Unsettled(doomed, look)
    ensures Unsettled(doomed, TryAll(env, deps, depth, look).look)
    ensures (exists i :: 0 <= i < |deps| && LastComp(deps[i]) in doomed) ==> !TryAll(env, deps, depth, look).out.Done?
    decreases Left(depth), 2, |deps|
  {
    if deps != [] {
      var front, last := deps[..|deps|-1], deps[|deps|-1];
      var l := TryAll(env, front, depth, look).look;
      CircleAll(env, front, depth, look, doomed);
      TryAllKeeps(env, front, depth, look);
      DoomedStays(env, doomed, look, l);
      CircleRefused(env, last, depth, l, doomed);
      if i :| 0 <= i < |deps| && LastComp(deps[i]) in doomed {
        assert i < |front| ==> front[i] == deps[i];
      }
    }
  }

  // ----- which loads succeed

  ghost predicate Settled(look: Look, n: string) {
    n in look && !look[n]
  }

  // every stage of the file goes well
  ghost predicate GoodFile(env: Env, path: string) {
    path in env.files && var f := env.files[path]; f.find.Done? && f.hdr.Done? && f.depsOk && Stages(f).Done?
  }

  ghost predicate NameOk(env: Env, n: string) {
    |n| <= env.maxNameLen - 1 && n != "" && n !in env.statics
  }

  // no name came into transition
  ghost predicate Clean(look: Look, look': Look) {
    forall n | n in look' && n !in look :: !look'[n]
  }

  // each new module has a good file, and what that file wants is there
  ghost predicate Grounded(env: Env, look: Look, look': Look) {
    forall n | Settled(look', n) && !Settled(look, n) :: HasGood(env, n, look')
  }

  ghost predicate HasGood(env: Env, n: string, look: Look) {
    exists p :: LastComp(p) == n && GoodFile(env, p) && AllSettled(env, p, look)
  }

  ghost predicate AllSettled(env: Env, path: string, look: Look)
    requires path in env.files
  {
    forall d | d in Wanted(env.files[path].deps, env.statics) :: Settled(look, LastComp(d))
  }

  lemma GroundedOn(env: Env, look: Look, look1: Look, look2: Look)
    requires Keeps(look, look1) && Keeps(look1, look2) && Grounded(env, look, look1) && Grounded(env, look1, look2)
    ensures Grounded(env, look, look2)
  {
    forall n | Settled(look2, n) && !Settled(look, n) ensures HasGood(env, n, look2) {
      if Settled(look1, n) {
        assert HasGood(env, n, look1);
        var p :| LastComp(p) == n && GoodFile(env, p) && AllSettled(env, p, look1);
        assert AllSettled(env, p, look2);
      }
    }
  }

  /** A load that succeeds leaves its name settled and nothing in transition; and whatever a load settles,
      succeeding or not, has a good file, and all its file wants has settled. */
  lemma {:induction false} LoadedIsGood(env: Env, path: string, depth: nat, look: Look)
    ensures var t := Try(env, path, depth, look);
      Grounded(env, look, t.look) && (t.out.Done? ==> Settled(t.look, LastComp(path)) && Clean(look, t.look))
    decreases Left(depth), 1, 0
  {
    var name := LastComp(path);
    if env.inited && depth <= MAXDEPTH && name !in look {
      var begun := look[name := true];
      var t := TryFile(env, path, depth, begun);
      GoodOfFile(env, path, depth, begun);
      TryFileKeeps(env, path, depth, begun);
      var after := Try(env, path, depth, look).look;
      forall n | Settled(after, n) && !Settled(look, n) ensures HasGood(env, n, after) {
        if n != name {
          assert HasGood(env, n, t.look);
          var p :| LastComp(p) == n && GoodFile(env, p) && AllSettled(env, p, t.look);
          assert AllSettled(env, p, after);
        } else if t.out.Done? && Try(env, path, depth, look).out.Done? {
          assert AllSettled(env, path, after);
        }
      }
    }
  }

  lemma {:induction false} GoodOfFile(env: Env, path: string, depth: nat, look: Look)
    requires depth <= MAXDEPTH
    ensures var t := TryFile(env, path, depth, look);
      && Grounded(env, look, t.look)
      && (t.out.Done? ==> GoodFile(env, path) && AllSettled(env, path, t.look) && Clean(look, t.look))
    decreases Left(depth), 0, 0
  {
    if path in env.files {
      GoodOfAll(env, Wanted(env.files[path].deps, env.statics), depth + 1, look);
    }
  }

  lemma {:induction false} GoodOfAll(env: Env, deps: seq<string>, depth: nat, look: Look)
    ensures var t := TryAll(env, deps, depth, look);
      && Grounded(env, look, t.look)
      && (t.out.Done? ==> (forall d | d in deps :: Settled(t.look, LastComp(d))) && Clean(look, t.look))
    decreases Left(depth), 2, |deps|
  {
    if deps != [] {
      var front, last := deps[..|deps|-1], deps[|deps|-1];
      var t := TryAll(env, front, depth, look);
      GoodOfAll(env, front, depth, look);
      TryAllKeeps(env, front, depth, look);
      if t.out.Done? {
        LoadedIsGood(env, last, depth, t.look);
        TryKeeps(env, last, depth, t.look);
        GroundedOn(env, look, t.look, Try(env, last, depth, t.look).look);
        assert deps == front + [last];
      }
    }
  }

  // paths with good files, each wanting only paths of the plan whose names rank lower
  ghost predicate Planned(env: Env, plan: set<string>, rank: map<string, nat>, look: Look) {
    forall p | p in plan :: var n := LastComp(p);
      n in rank && NameOk(env, n) && (Settled(look, n) || Ready(env, plan, rank, p))
  }

  ghost predicate Ready(env: Env, plan: set<string>, rank: map<string, nat>, path: string)
    requires LastComp(path) in rank
  {
    && GoodFile(env, path)
    && forall d | d in Wanted(env.files[path].deps, env.statics) ::
         d in plan && LastComp(d) in rank && rank[LastComp(d)] < rank[LastComp(path)]
  }

  // no name of that rank or below is in transition
  ghost predicate Quiet(rank: map<string, nat>, look: Look, r: int) {
    forall n | n in rank && rank[n] <= r && n in look :: !look[n]
  }

  /** A module loads when its dependencies can be ranked, every file of the plan is good, nothing of it is
      in transition, and the rank fits the depth that is left. */
  lemma {:induction false} PlanLoads(env: Env, path: string, depth: nat, look: Look, plan: set<string>,
                                     rank: map<string, nat>)
    requires env.inited && Planned(env, plan, rank, look) && path in plan
    requires depth + rank[LastComp(path)] <= MAXDEPTH && Quiet(rank, look, rank[LastComp(path)])
    ensures Try(env, path, depth, look).out.Done?
    decreases Left(depth), 1, 0
  {
    var name := LastComp(path);
    if name !in look {
      assert Keeps(look, look[name := true]);
      PlanOfAll(env, Wanted(env.files[path].deps, env.statics), depth + 1, look[name := true], plan, rank, rank[name]);
    }
  }

  lemma {:induction false} PlanOfAll(env: Env, deps: seq<string>, depth: nat, look: Look, plan: set<string>,
                                     rank: map<string, nat>, r: nat)
    requires env.inited && Planned(env, plan, rank, look) && Quiet(rank, look, r - 1) && depth + r - 1 <= MAXDEPTH
    requires forall d | d in deps :: d in plan && rank[LastComp(d)] < r
    ensures TryAll(env, deps, depth, look).out.Done?
    decreases Left(depth), 2, |deps|
  {
    if deps != [] {
      var front, last := deps[..|deps|-1], deps[|deps|-1];
      var t := TryAll(env, front, depth, look);
      assert last in deps;
      PlanOfAll(env, front, depth, look, plan, rank, r);
      TryAllKeeps(env, front, depth, look);
      GoodOfAll(env, front, depth, look);
      PlanLoads(env, last, depth, t.look, plan, rank);
    }
  }

  // ----- the names a heap of records shows

  ghost predicate Named(mods: Mods, n: string) {
    exists p :: p in mods && mods[p].name == n
  }

  // look is what the records' names and marks are, and no two records have one name
  ghost predicate Reads(mods: Mods, look: Look) {
    && (forall p | p in mods :: mods[p].name in look && look[mods[p].name] == (mods[p].loading || mods[p].unloading))
    && (forall p, q | p in mods && q in mods && mods[p].name == mods[q].name :: p == q)
    && (forall n | n in look :: Named(mods, n))
  }

  // the same records with the same names and marks
  ghost predicate SameNames(mods: Mods, mods': Mods) {
    && mods'.Keys == mods.Keys
    && forall p | p in mods ::
      mods'[p].name == mods[p].name && mods'[p].loading == mods[p].loading && mods'[p].unloading == mods[p].unloading
  }

  lemma SameReads(mods: Mods, mods': Mods, look: Look)
    requires SameNames(mods, mods') && Reads(mods, look)
    ensures Reads(mods', look)
  {
    forall n | n in look ensures Named(mods', n) {
      assert Named(mods, n);
      var p :| p in mods && mods[p].name == n;
      assert mods'[p].name == n;
    }
  }

  lemma NewReads(mods: Mods, mods': Mods, look: Look, m: Ptr)
    requires Reads(mods, look) && m !in mods && m in mods' && mods' == mods[m := mods'[m]]
    requires mods'[m].loading && forall p | p in mods :: mods[p].name != mods'[m].name
    ensures mods'[m].name !in look && Reads(mods', look[mods'[m].name := true])
  {
    var name := mods'[m].name;
    forall n {:trigger Named(mods', n)} | n in look[name := true] ensures Named(mods', n) {
      if n == name {
        assert mods'[m].name == n;
      } else {
        assert Named(mods, n);
        var p :| p in mods && mods[p].name == n;
        assert mods'[p].name == n;
      }
    }
  }

  lemma GoneReads(mods: Mods, mods': Mods, look: Look, m: Ptr)
    requires Reads(mods, look) && m in mods && mods'.Keys == mods.Keys - {m} && Kept(mods, mods', m)
    ensures Reads(mods', look - {mods[m].name})
  {
    var name := mods[m].name;
    forall n | n in look - {name} ensures Named(mods', n) {
      assert Named(mods, n);
      var p :| p in mods && mods[p].name == n;
      assert p != m && mods'[p].name == n;
    }
  }

  lemma SettledReads(mods: Mods, mods': Mods, look: Look, m: Ptr)
    requires Reads(mods, look) && m in mods && !mods[m].unloading
    requires m in mods' && mods' == mods[m := mods'[m]] && mods'[m].name == mods[m].name
    requires !mods'[m].loading && !mods'[m].unloading
    ensures Reads(mods', look[mods[m].name := false])
  {
    var name := mods[m].name;
    forall n {:trigger Named(mods', n)} | n in look[name := false] ensures Named(mods', n) {
      assert Named(mods, n);
      var p :| p in mods && mods[p].name == n;
      assert mods'[p].name == n;
    }
  }

  // ----- what a load of the records came to, in terms of the function

  function Out(r: LoadResult): Outcome {
    match r
    case Loaded(_) => Done
    case Failed(e) => Err(e)
    case Interrupted => Intr
  }

  // the outcome, the names after it and what is left undone are those of t
  ghost predicate Matches(mods0: Mods, look: Look, t: Tried, mods: Mods, o: Outcome, j: Jam) {
    Reads(mods0, look) ==> o == t.out && j == t.jam && Reads(mods, t.look)
  }

  ghost predicate Came(env: Env, path: string, depth: nat, look: Look, mods0: Mods, mods: Mods, o: Outcome, j: Jam) {
    Matches(mods0, look, Try(env, path, depth, look), mods, o, j)
  }

  ghost predicate CameFile(env: Env, path: string, depth: nat, look: Look, mods0: Mods, mods: Mods, o: Outcome,
                           j: Jam) {
    depth <= MAXDEPTH && Matches(mods0, look, TryFile(env, path, depth, look), mods, o, j)
  }

  ghost predicate CameAll(env: Env, deps: seq<string>, depth: nat, look: Look, mods0: Mods, mods: Mods, o: Outcome,
                          j: Jam) {
    Matches(mods0, look, TryAll(env, deps, depth, look), mods, o, j)
  }

  // a dependency: any error of its load is EINVAL
  ghost predicate CameDep(env: Env, name: string, depth: nat, look: Look, mods0: Mods, mods: Mods, o: Outcome, j: Jam) {
    var t := Try(env, name, depth, look);
    Matches(mods0, look, if t.out.Err? then Tried(Err(EINVAL), t.look, NoJam) else t, mods, o, j)
  }

  // the name is one that may be loaded
  predicate Fair(env: Env, path: string, depth: nat) {
    var name := LastComp(path);
    env.inited && |name| <= env.maxNameLen - 1 && name != "" && name !in env.statics && depth <= MAXDEPTH
  }

  lemma {:induction false} CameRefused(env: Env, path: string, depth: nat, look: Look, mods: Mods, e: Errno)
    requires !Fair(env, path, depth)
    requires e == if !env.inited then ENOSYS else if |LastComp(path)| > env.maxNameLen - 1 then ENAMETOOLONG else EINVAL
    ensures Came(env, path, depth, look, mods, mods, Err(e), NoJam)
  {
  }

  lemma {:induction false} CameFound(env: Env, path: string, depth: nat, look: Look, mods: Mods, mods': Mods, m: Ptr)
    requires Fair(env, path, depth) && m in mods && mods[m].name == LastComp(path)
    ensures mods[m].loading || mods[m].unloading ==> Came(env, path, depth, look, mods, mods, Err(EINVAL), NoJam)
    ensures !(mods[m].loading || mods[m].unloading) && SameNames(mods, mods') ==>
      Came(env, path, depth, look, mods, mods', Done, NoJam)
  {
    hide Reads, TryFile;
    if Reads(mods, look) {
      ReadsAt(mods, look, m);
      if SameNames(mods, mods') {
        SameReads(mods, mods', look);
      }
    }
  }

  lemma ReadsAt(mods: Mods, look: Look, m: Ptr)
    requires Reads(mods, look) && m in mods
    ensures mods[m].name in look && look[mods[m].name] == (mods[m].loading || mods[m].unloading)
  {
  }

  // a new record, its file, and the record settled, gone, or left behind by an interrupt
  lemma {:induction false} CameNew(env: Env, path: string, depth: nat, look: Look, mods0: Mods, mods1: Mods,
                                   mods2: Mods, mods: Mods, m: Ptr, o: Outcome, j: Jam)
    requires Fair(env, path, depth) && m !in mods0 && m in mods1 && mods1 == mods0[m := mods1[m]]
    requires mods1[m].loading && mods1[m].name == LastComp(path)
    requires forall p | p in mods0 :: mods0[p].name != LastComp(path)
    requires CameFile(env, path, depth, look[LastComp(path) := true], mods1, mods2, o, j)
    requires m in mods2 && mods2[m].name == LastComp(path) && !mods2[m].unloading
    requires o.Intr? ==> mods == mods2
    requires o.Err? && j.Next? ==> SameNames(mods2, mods)
    requires o.Err? && !j.Next? ==> mods.Keys == mods2.Keys - {m} && Kept(mods2, mods, m)
    requires o.Done? ==> m in mods && mods == mods2[m := mods[m]] && mods[m].name == LastComp(path)
    requires o.Done? ==> !mods[m].loading && !mods[m].unloading
    ensures var lost := o.Err? && j.Next?;
      Came(env, path, depth, look, mods0, mods, if lost then Intr else o,
           if lost then Lost else if o.Intr? then j else NoJam)
  {
    hide Reads, TryFile, Kept, LastComp, SameNames;
    if Reads(mods0, look) {
      var t := TryFile(env, path, depth, look[LastComp(path) := true]);
      NewReads(mods0, mods1, look, m);
      if o.Err? && j.Next? {
        SameReads(mods2, mods, t.look);
      } else if o.Err? {
        GoneReads(mods2, mods, t.look, m);
      } else if o.Done? {
        SettledReads(mods2, mods, t.look, m);
      }
    }
  }

  // the file is not found
  lemma CameNoFile(env: Env, path: string, depth: nat, look: Look, mods: Mods, o: Outcome)
    requires depth <= MAXDEPTH
    requires if path in env.files then !env.files[path].find.Done? && o == env.files[path].find else o == Err(ENOENT)
    ensures CameFile(env, path, depth, look, mods, mods, o, NoJam)
  {
  }

  lemma CameBadFile(env: Env, path: string, depth: nat, look: Look, mods: Mods, o: Outcome)
    requires depth <= MAXDEPTH && path in env.files && env.files[path].find.Done?
    requires var f := env.files[path];
      if !f.hdr.Done? then o == f.hdr else !f.depsOk && o == Err(EINVAL)
    ensures CameFile(env, path, depth, look, mods, mods, o, NoJam)
  {
  }

  lemma CameLater(env: Env, path: string, depth: nat, look: Look, mods0: Mods, mods1: Mods, mods: Mods, o: Outcome,
                  j: Jam)
    requires SameNames(mods0, mods1) && CameFile(env, path, depth, look, mods1, mods, o, j)
    ensures CameFile(env, path, depth, look, mods0, mods, o, j)
  {
    hide Reads, SameNames, TryFile;
    if Reads(mods0, look) {
      SameReads(mods0, mods1, look);
    }
  }

  // the dependencies, and then the stages
  lemma CameStages(env: Env, path: string, depth: nat, look: Look, mods0: Mods, mods1: Mods, mods: Mods, o: Outcome)
    requires depth <= MAXDEPTH && path in env.files
    requires var f := env.files[path]; f.find.Done? && f.hdr.Done? && f.depsOk
    requires CameAll(env, Wanted(env.files[path].deps, env.statics), depth + 1, look, mods0, mods1, Done, NoJam)
    requires SameNames(mods1, mods) && o == Stages(env.files[path])
    ensures CameFile(env, path, depth, look, mods0, mods, o, if Jams(env.files[path]) then Next else NoJam)
  {
    hide Reads, SameNames, TryAll, Stages, Jams;
    if Reads(mods0, look) {
      SameReads(mods1, mods, TryAll(env, Wanted(env.files[path].deps, env.statics), depth + 1, look).look);
    }
  }

  lemma CameNoDeps(env: Env, path: string, depth: nat, look: Look, mods0: Mods, mods: Mods, o: Outcome, j: Jam)
    requires depth <= MAXDEPTH && path in env.files && !o.Done?
    requires var f := env.files[path]; f.find.Done? && f.hdr.Done? && f.depsOk
    requires CameAll(env, Wanted(env.files[path].deps, env.statics), depth + 1, look, mods0, mods, o, j)
    ensures CameFile(env, path, depth, look, mods0, mods, o, j)
  {
    hide Reads, TryAll, Stages;
  }

  lemma CameNone(env: Env, depth: nat, look: Look, mods: Mods)
    ensures CameAll(env, [], depth, look, mods, mods, Done, NoJam)
  {
  }

  // one more dependency
  lemma {:induction false} CameSnoc(env: Env, deps: seq<string>, d: string, depth: nat, look: Look, mods0: Mods,
                                    mods1: Mods, mods: Mods, o: Outcome, j: Jam)
    requires CameAll(env, deps, depth, look, mods0, mods1, Done, NoJam)
    requires CameDep(env, d, depth, TryAll(env, deps, depth, look).look, mods1, mods, o, j)
    ensures CameAll(env, deps + [d], depth, look, mods0, mods, o, j)
  {
    hide Reads, Try;
    assert (deps + [d])[..|deps + [d]| - 1] == deps;
  }

  // after an error no later dependency is tried
  lemma {:induction false} CameShort(env: Env, deps: seq<string>, n: nat, depth: nat, look: Look, mods0: Mods,
                                     mods: Mods,                                      o: Outcome, j: Jam)
    requires n <= |deps| && !o.Done? && CameAll(env, deps[..n], depth, look, mods0, mods, o, j)
    ensures CameAll(env, deps, depth, look, mods0, mods, o, j)
    decreases |deps|
  {
    hide Reads, Try;
    if n == |deps| {
      assert deps[..n] == deps;
    } else {
      assert deps[..|deps|-1][..n] == deps[..n];
      CameShort(env, deps[..|deps|-1], n, depth, look, mods0, mods, o, j);
    }
  }

  lemma {:induction false} WantedPrefix(deps: seq<string>, statics: set<string>, k: nat)
    requires k <= |deps|
    ensures Wanted(deps[..k], statics) <= Wanted(deps, statics)
    decreases |deps| - k
  {
    if k == |deps| {
      assert deps[..k] == deps;
    } else {
      WantedSnoc(deps, statics, k);
      WantedPrefix(deps, statics, k + 1);
    }
  }

  // a dependency that does not load ends the list
  lemma {:induction false} CameStop(env: Env, deps: seq<string>, k: nat, depth: nat, look: Look, mods0: Mods,
                                    mods1: Mods, mods: Mods, o: Outcome, j: Jam)
    requires k < |deps| && deps[k] !in env.statics && !o.Done?
    requires CameAll(env, Wanted(deps[..k], env.statics), depth, look, mods0, mods1, Done, NoJam)
    requires var l := TryAll(env, Wanted(deps[..k], env.statics), depth, look).look;
      CameDep(env, deps[k], depth, l, mods1, mods, o, j)
    ensures CameAll(env, Wanted(deps, env.statics), depth, look, mods0, mods, o, j)
  {
    hide CameAll, CameDep, TryAll;
    WantedSnoc(deps, env.statics, k);
    WantedPrefix(deps, env.statics, k + 1);
    var front := Wanted(deps[..k + 1], env.statics);
    assert front == Wanted(deps, env.statics)[..|front|];
    assert front == Wanted(deps[..k], env.statics) + [deps[k]];
    CameSnoc(env, Wanted(deps[..k], env.statics), deps[k], depth, look, mods0, mods1, mods, o, j);
    CameShort(env, Wanted(deps, env.statics), |front|, depth, look, mods0, mods, o, j);
  }

  // nothing about the names changes after a load
  lemma CameOn(env: Env, name: string, depth: nat, look: Look, mods0: Mods, mods1: Mods, mods: Mods, o: Outcome, j: Jam)
    requires CameDep(env, name, depth, look, mods0, mods1, o, j) && SameNames(mods1, mods)
    ensures CameDep(env, name, depth, look, mods0, mods, o, j)
  {
    hide Reads, SameNames, Try;
    if Reads(mods0, look) {
      var t := Try(env, name, depth, look);
      SameReads(mods1, mods, t.look);
    }
  }

  lemma {:induction false} FirstBadFrom(install: seq<Outcome>, i: nat)
    requires i <= |install| && forall j | 0 <= j < i :: install[j].Done?
    ensures FirstBad(install) == FirstBad(install[i..])
  {
    if i > 0 {
      FirstBadFrom(install[1..], i - 1);
      assert install[1..][i - 1..] == install[i..];
    }
  }

  // a load that did not find its module, seen from the record that wants it
  lemma CameSame(env: Env, name: string, depth: nat, look: Look, mods0: Mods, mods: Mods, o: Outcome, j: Jam)
    requires Came(env, name, depth, look, mods0, mods, o, j) && (o.Err? ==> j == NoJam)
    ensures CameDep(env, name, depth, look, mods0, mods, if o.Err? then Err(EINVAL) else o, j)
  {
    hide Reads, Try;
  }

  lemma DependNames(mods: Mods, mods': Mods, m: Ptr, d: Ptr)
    requires Depends(mods, mods', m, d)
    ensures SameNames(mods, mods')
  {
  }

  lemma CutNames(mods: Mods, mods': Mods, m: Ptr)
    requires m in mods && mods' == mods[m := mods[m].(nlink := 0)]
    ensures SameNames(mods, mods')
  {
  }

  lemma MarkedNames(mods: Mods, mods': Mods, m: Ptr)
    requires m in mods && m in mods' && mods' == mods[m := mods[m].(demand := mods'[m].demand)]
    ensures SameNames(mods, mods')
  {
  }

  lemma PathNames(mods: Mods, mods': Mods, m: Ptr)
    requires m in mods && m in mods' && mods' == mods[m := mods[m].(path := mods'[m].path)]
    ensures SameNames(mods, mods')
  {
  }

  lemma OwnNames(mods: Mods, mods': Mods, m: Ptr)
    requires m in mods && OnlyOwn(mods, mods', m)
    requires mods'[m].name == mods[m].name && mods'[m].loading == mods[m].loading
    requires mods'[m].unloading == mods[m].unloading
    ensures SameNames(mods, mods')
  {
  }

  // ----- no two records of one name

  ghost predicate Unique(mods: Mods) {
    forall p, q | p in mods && q in mods && mods[p].name == mods[q].name :: p == q
  }

  // the names of the records with their marks
  ghost function LookOf(mods: Mods): Look {
    var names := set p | p in mods :: mods[p].name;
    map n | n in names :: exists p :: p in mods && mods[p].name == n && (mods[p].loading || mods[p].unloading)
  }

  lemma UniqueReads(mods: Mods)
    requires Unique(mods)
    ensures Reads(mods, LookOf(mods))
  {
    var look := LookOf(mods);
    forall p | p in mods ensures look[mods[p].name] == (mods[p].loading || mods[p].unloading) {
    }
  }

  lemma ReadsLook(mods: Mods, look: Look)
    requires Reads(mods, look)
    ensures Unique(mods) && look == LookOf(mods)
  {
    forall n ensures n in look <==> n in LookOf(mods) {
      if n in look {
        assert Named(mods, n);
      }
    }
    forall n | n in look ensures look[n] == LookOf(mods)[n] {
      assert Named(mods, n);
    }
  }

  // records that are still there have their names
  lemma FewerUnique(mods: Mods, mods': Mods)
    requires Unique(mods) && forall p | p in mods' :: p in mods && mods'[p].name == mods[p].name
    ensures Unique(mods')
  {
  }

  lemma GoneUnique(mods: Mods, mods': Mods, m: Ptr)
    requires m in mods && mods'.Keys == mods.Keys - {m} && Kept(mods, mods', m)
    ensures Unique(mods) ==> Unique(mods')
  {
  }

  lemma UnlinkedUnique(mods: Mods, mods': Mods, m: Ptr)
    requires m in mods && mods' == mods[m := mods[m].(nlink := 0)]
    ensures Unique(mods) ==> Unique(mods')
  {
  }

  lemma ShrunkUnique(mods: Mods, mods': Mods)
    requires Shrunk(mods, mods')
    ensures Unique(mods) ==> Unique(mods')
  {
  }

  lemma OneUnique(mods: Mods, mods': Mods, m: Ptr)
    requires m in mods && m in mods' && mods' == mods[m := mods'[m]] && mods'[m].name == mods[m].name
    ensures Unique(mods) ==> Unique(mods')
  {
  }

  lemma {:induction false} CameUnique(env: Env, path: string, depth: nat, look: Look, mods0: Mods, mods: Mods,
                                      o: Outcome, j: Jam)
    requires Came(env, path, depth, look, mods0, mods, o, j) && look == LookOf(mods0)
    ensures Unique(mods0) ==> Unique(mods) && LookOf(mods) == Try(env, path, depth, look).look
    ensures Unique(mods0) ==> o == Try(env, path, depth, look).out && j == Try(env, path, depth, look).jam
  {
    hide Try, Unique, Reads;
    if Unique(mods0) {
      UniqueReads(mods0);
      ReadsLook(mods, Try(env, path, depth, look).look);
    }
  }

  // ----- loads that cannot be undone

  /** Only a file whose load entry succeeds, whose linkages do not all install and whose unload entry is
      interrupted can stop a load from being undone. */
  lemma {:induction false} JamHasFile(env: Env, path: string, depth: nat, look: Look)
    requires !Try(env, path, depth, look).jam.NoJam?
    ensures exists p :: p in env.files && Jams(env.files[p])
    decreases Left(depth), 1, 0
  {
    JamFile(env, path, depth, look[LastComp(path) := true]);
  }

  lemma {:induction false} JamFile(env: Env, path: string, depth: nat, look: Look)
    requires depth <= MAXDEPTH && !TryFile(env, path, depth, look).jam.NoJam?
    ensures exists p :: p in env.files && Jams(env.files[p])
    decreases Left(depth), 0, 0
  {
    var deps := Wanted(env.files[path].deps, env.statics);
    if !TryAll(env, deps, depth + 1, look).jam.NoJam? {
      JamAll(env, deps, depth + 1, look);
    }
  }

  lemma {:induction false} JamAll(env: Env, deps: seq<string>, depth: nat, look: Look)
    requires !TryAll(env, deps, depth, look).jam.NoJam?
    ensures exists p :: p in env.files && Jams(env.files[p])
    decreases Left(depth), 2, |deps|
  {
    var front := deps[..|deps|-1];
    var t := TryAll(env, front, depth, look);
    if !t.out.Done? {
      JamAll(env, front, depth, look);
    } else {
      JamHasFile(env, deps[|deps|-1], depth, t.look);
    }
  }

  /** Such a file: its load entry succeeds, its one linkage does not install, and the unload entry called
      to undo that is interrupted.  The record stays in the list, loading for good. */
  lemma StuckLoad(e: Errno)
    ensures var f := File(Done, Done, true, [], Done, Done, Done, [Err(e)], Intr);
      Try(Env(true, {}, 15, map["m" := f]), "m", 1, map[]) == Tried(Intr, map["m" := true], Lost)
  {
    var f := File(Done, Done, true, [], Done, Done, Done, [Err(e)], Intr);
    var env := Env(true, {}, 15, map["m" := f]);
    assert LastComp("m") == "m";
    assert FirstBad([Err(e)]) == Err(e);
    assert TryFile(env, "m", 1, map["m" := true]) == Tried(Err(e), map["m" := true], Next);
    assert map[]["m" := true] == map["m" := true];
  }
}
