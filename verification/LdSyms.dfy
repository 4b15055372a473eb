/**
 Symbol resolution of a module file: its own definitions through a hash of
 buckets and chains, then the dependencies' tables last first, then the
 kernel's; and the commons it has to allocate itself.
 */
module LdSyms {
  import opened Basics
  import opened LdLayout
  import SymBlock

  const BUCKETS := 101

  type Name = seq<Byte>

  datatype Bind = Local | Global | Weak

  // where a symbol is defined: nowhere, as a common, absolutely, in a section of the image, in a
  // section that has no place there, or behind an index that makes no sense
  datatype Place = Undef | Common | Abs | Section(off: nat) | Unplaced | Bad

  // for a common, value is its alignment and size its size
  datatype Sym = Sym(name: Name, place: Place, bind: Bind, value: nat, size: nat)

  datatype Kind = NoKind | Rel | Absolute

  // one resolved symbol
  datatype Lsym = Lsym(kind: Kind, val: nat, tab: bool)

  type Table = map<Name, nat>

  // ----- own definitions

  // a definition other symbols of the file can bind to
  predicate Defines(s: Sym) {
    (s.place.Abs? || s.place.Section?) && !s.bind.Local?
  }

  // what the symbol itself denotes, if it is defined
  function OwnValue(s: Sym): Lsym {
    match s.place
    case Abs => Lsym(Absolute, s.value, false)
    case Section(off) => Lsym(Rel, off + s.value, false)
    case _ => Lsym(NoKind, 0, false)
  }

  // the linear specification: the strong definition of a name before n, else the first weak one, else 0
  ghost function StrongBefore(syms: seq<Sym>, n: nat, name: Name): (r: nat)
    requires n <= |syms|
    ensures r == 0 || (r < n && Defines(syms[r]) && syms[r].bind.Global? && syms[r].name == name)
    ensures r == 0 ==> forall i | 1 <= i < n && Defines(syms[i]) && syms[i].name == name :: syms[i].bind.Weak?
  {
    if n <= 1 then 0
    else if Defines(syms[n-1]) && syms[n-1].bind.Global? && syms[n-1].name == name then n - 1
    else StrongBefore(syms, n - 1, name)
  }

  ghost function FirstBefore(syms: seq<Sym>, n: nat, name: Name): (r: nat)
    requires n <= |syms|
    ensures r == 0 || (r < n && Defines(syms[r]) && syms[r].name == name)
    ensures forall i | 1 <= i < (if r == 0 then n else r) && Defines(syms[i]) :: syms[i].name != name
  {
    if n <= 1 then 0
    else if FirstBefore(syms, n - 1, name) != 0 then FirstBefore(syms, n - 1, name)
    else if Defines(syms[n-1]) && syms[n-1].name == name then n - 1
    else 0
  }

  ghost function Own(syms: seq<Sym>, n: nat, name: Name): (r: nat)
    requires n <= |syms|
    ensures r == 0 || (r < n && Defines(syms[r]) && syms[r].name == name)
  {
    if StrongBefore(syms, n, name) != 0 then StrongBefore(syms, n, name) else FirstBefore(syms, n, name)
  }

  // two strong definitions of one name
  ghost predicate Clash(syms: seq<Sym>, i: nat, j: nat) {
    && 1 <= i < j < |syms| && Defines(syms[i]) && Defines(syms[j])
    && syms[i].bind.Global? && syms[j].bind.Global? && syms[i].name == syms[j].name
  }

  // ----- the hash

  // the bucket heads and the chains: symbol indices, 0 ending a chain, chains going down
  datatype Hash = Hash(heads: seq<nat>, chain: seq<nat>) {
    ghost predicate Ok(nsym: nat) {
      && |heads| == BUCKETS && |chain| == nsym && nsym >= 1
      && (forall h | 0 <= h < BUCKETS :: heads[h] < nsym)
      && (forall i | 1 <= i < nsym :: chain[i] < i)
    }

    // symbol i in front of bucket h
    function Insert(h: nat, i: nat): Hash
      requires h < |heads| && i < |chain|
    {
      Hash(heads[h := i], chain[i := heads[h]])
    }
  }

  function Bucket(name: Name): (h: nat)
    ensures h < BUCKETS
  {
    SymBlock.ElfHash(name) % BUCKETS
  }

  // the first symbol of that name along the chain from i
  ghost function Found(b: Hash, syms: seq<Sym>, i: nat, name: Name): (r: nat)
    requires b.Ok(|syms|) && i < |syms|
    ensures r <= i
  {
    if i == 0 then 0 else if syms[i].name == name then i else Found(b, syms, b.chain[i], name)
  }

  lemma {:induction false} FoundFrame(b: Hash, b': Hash, syms: seq<Sym>, i: nat, name: Name)
    requires b.Ok(|syms|) && b'.Ok(|syms|) && i < |syms|
    requires forall k | 1 <= k <= i :: b'.chain[k] == b.chain[k]
    ensures Found(b', syms, i, name) == Found(b, syms, i, name)
  {
    if i != 0 && syms[i].name != name {
      FoundFrame(b, b', syms, b.chain[i], name);
    }
  }

  // what the hash finds is what the linear specification says
  ghost predicate Finds(b: Hash, syms: seq<Sym>, n: nat, name: Name)
    requires b.Ok(|syms|) && n <= |syms|
  {
    Found(b, syms, b.heads[Bucket(name)], name) == Own(syms, n, name)
  }

  ghost predicate Faithful(b: Hash, syms: seq<Sym>, n: nat) {
    && b.Ok(|syms|) && 1 <= n <= |syms|
    && (forall h | 0 <= h < BUCKETS :: b.heads[h] < n)
    && (forall i | 0 <= i < |syms| && n <= i :: b.chain[i] == 0)
    && forall name: Name :: Finds(b, syms, n, name)
  }

  // A symbol that defines nothing, or a weak definition of a name already defined, is not entered.
  lemma SkipKeeps(b: Hash, syms: seq<Sym>, n: nat)
    requires Faithful(b, syms, n) && n < |syms|
    requires !Defines(syms[n]) || (syms[n].bind.Weak? && Own(syms, n, syms[n].name) != 0)
    ensures Faithful(b, syms, n + 1)
  {
    var n1 := n + 1;
    forall name: Name {:trigger Finds(b, syms, n1, name)} ensures Finds(b, syms, n1, name) {
      assert Finds(b, syms, n, name);
    }
  }

  // A first definition, or a strong one over a weak one, goes in front of its bucket.
  lemma {:induction false} EnterKeeps(b: Hash, syms: seq<Sym>, n: nat)
    requires Faithful(b, syms, n) && n < |syms| && Defines(syms[n])
    requires Own(syms, n, syms[n].name) == 0 ||
      (syms[n].bind.Global? && StrongBefore(syms, n, syms[n].name) == 0)
    ensures Faithful(b.Insert(Bucket(syms[n].name), n), syms, n + 1)
  {
    hide Own, StrongBefore, FirstBefore, Found, Finds, Bucket, Defines;
    var b', n1 := b.Insert(Bucket(syms[n].name), n), n + 1;
    InsertOk(b, syms, n, Bucket(syms[n].name));
    forall name: Name {:trigger Finds(b', syms, n1, name)} ensures Finds(b', syms, n1, name) {
      EnterFinds(b, syms, n, name);
    }
  }

  lemma InsertOk(b: Hash, syms: seq<Sym>, n: nat, h: nat)
    requires b.Ok(|syms|) && 1 <= n < |syms| && h < BUCKETS && b.heads[h] < n
    ensures b.Insert(h, n).Ok(|syms|)
  {
  }

  lemma {:induction false} EnterFinds(b: Hash, syms: seq<Sym>, n: nat, name: Name)
    requires Faithful(b, syms, n) && n < |syms| && Defines(syms[n])
    requires Own(syms, n, syms[n].name) == 0 ||
      (syms[n].bind.Global? && StrongBefore(syms, n, syms[n].name) == 0)
    ensures var b' := b.Insert(Bucket(syms[n].name), n);
      b'.Ok(|syms|) && Finds(b', syms, n + 1, name)
  {
    hide Bucket, Defines;
    var h := Bucket(syms[n].name);
    var b' := b.Insert(h, n);
    InsertOk(b, syms, n, h);
    assert Finds(b, syms, n, name);
    FoundFrame(b, b', syms, b.heads[Bucket(name)], name);
    if name != syms[n].name {
      assert Own(syms, n + 1, name) == Own(syms, n, name);
      if Bucket(name) == h {
        assert Found(b', syms, n, name) == Found(b', syms, b'.chain[n], name);
      }
    } else {
      assert Found(b', syms, n, name) == n;
    }
  }

  /** ownfind: the walk ends because the chain's indices go down. */
  method OwnFind(b: Hash, syms: seq<Sym>, name: Name, ghost n: nat) returns (i: nat)
    requires Faithful(b, syms, n)
    ensures i == Own(syms, n, name)
  {
    assert Finds(b, syms, n, name);
    var h := SymBlock.Hash(name);
    i := b.heads[h % BUCKETS];
    while i != 0 && syms[i].name != name
      invariant i < |syms| && Found(b, syms, i, name) == Own(syms, n, name)
      decreases i
    {
      i := b.chain[i];
    }
  }

  // ----- the first pass: definitions

  predicate Placed(s: Sym) {
    s.place.Abs? || s.place.Section?
  }

  // the definition whose value symbol k carries after the symbols before n
  ghost function Target(syms: seq<Sym>, n: nat, k: nat): (t: nat)
    requires k < n <= |syms|
    ensures t < |syms|
  {
    if !Defines(syms[k]) || syms[k].bind.Global? then k
    else if FirstBefore(syms, n, syms[k].name) == k then Own(syms, n, syms[k].name)
    else Own(syms, k, syms[k].name)
  }

  // symbol k as resolved by the first pass so far
  ghost predicate Carries(l: Lsym, syms: seq<Sym>, n: nat, k: nat)
    requires k < |syms| && n <= |syms|
  {
    if 1 <= k < n && Placed(syms[k]) then
      && l.kind == OwnValue(syms[Target(syms, n, k)]).kind
      && l.val == OwnValue(syms[Target(syms, n, k)]).val
      && (l.tab <==> Defines(syms[k]) && Own(syms, n, syms[k].name) == k)
    else l == Lsym(NoKind, 0, false)
  }

  ghost predicate Carried(ls: seq<Lsym>, syms: seq<Sym>, n: nat) {
    |ls| == |syms| && n <= |syms| && forall k | 0 <= k < |ls| :: Carries(ls[k], syms, n, k)
  }

  // what the first pass does with symbol n, given what ownfind answered
  function Define(ls: seq<Lsym>, syms: seq<Sym>, n: nat, j: nat): seq<Lsym>
    requires n < |ls| == |syms| && j < n
  {
    var l := OwnValue(syms[n]);
    if !Placed(syms[n]) then ls
    else if syms[n].bind.Local? then ls[n := l]
    else if j == 0 then ls[n := l.(tab := true)]
    else if syms[n].bind.Weak? then ls[n := ls[j].(tab := false)]
    else ls[j := l][n := l.(tab := true)]
  }

  lemma DefineKeeps(ls: seq<Lsym>, syms: seq<Sym>, n: nat, j: nat)
    requires Carried(ls, syms, n) && 1 <= n < |syms|
    requires j == if Defines(syms[n]) then Own(syms, n, syms[n].name) else 0
    requires j != 0 && syms[n].bind.Global? ==> syms[j].bind.Weak?
    ensures Carried(Define(ls, syms, n, j), syms, n + 1)
  {
    hide Carries;
    var ls' := Define(ls, syms, n, j);
    forall k | 0 <= k < |ls| ensures Carries(ls'[k], syms, n + 1, k) {
      assert Carries(ls[k], syms, n, k) && (j != 0 ==> Carries(ls[j], syms, n, j));
      DefineOne(ls, syms, n, j, k);
    }
  }

  // one symbol more, and the definitions in force
  lemma OwnStep(syms: seq<Sym>, n: nat, name: Name)
    requires 1 <= n < |syms|
    ensures !Defines(syms[n]) || syms[n].name != name ==>
      Own(syms, n + 1, name) == Own(syms, n, name) && FirstBefore(syms, n + 1, name) == FirstBefore(syms, n, name)
    ensures Own(syms, n, name) == 0 <==> FirstBefore(syms, n, name) == 0
    ensures Defines(syms[n]) && syms[n].name == name ==>
      FirstBefore(syms, n + 1, name) == if Own(syms, n, name) == 0 then n else FirstBefore(syms, n, name)
    ensures Defines(syms[n]) && syms[n].name == name ==>
      Own(syms, n + 1, name) == if Own(syms, n, name) == 0 || syms[n].bind.Global? then n else Own(syms, n, name)
  {
  }

  // a symbol that is no definition leaves every other as it was
  lemma DefineNone(ls: seq<Lsym>, syms: seq<Sym>, n: nat, k: nat)
    requires |ls| == |syms| && 1 <= n < |syms| && k < |syms| && !Defines(syms[n])
    requires Carries(ls[k], syms, n, k)
    ensures Carries(Define(ls, syms, n, 0)[k], syms, n + 1, k)
  {
    hide Own, FirstBefore;
    OwnStep(syms, n, syms[k].name);
  }

  // the new definition itself
  lemma DefineNew(ls: seq<Lsym>, syms: seq<Sym>, n: nat, j: nat)
    requires |ls| == |syms| && 1 <= n < |syms| && Defines(syms[n]) && j == Own(syms, n, syms[n].name)
    requires Carries(ls[n], syms, n, n) && (0 < j < n ==> Carries(ls[j], syms, n, j))
    requires j != 0 && syms[n].bind.Global? ==> syms[j].bind.Weak?
    ensures j < n && Carries(Define(ls, syms, n, j)[n], syms, n + 1, n)
  {
    hide FirstBefore, StrongBefore;
    OwnStep(syms, n, syms[n].name);
  }

  // the definition that was in force for its name
  lemma DefineOld(ls: seq<Lsym>, syms: seq<Sym>, n: nat, j: nat)
    requires |ls| == |syms| && 1 <= n < |syms| && Defines(syms[n]) && j == Own(syms, n, syms[n].name) && j != 0
    requires Carries(ls[j], syms, n, j)
    requires syms[n].bind.Global? ==> syms[j].bind.Weak?
    ensures j < n && Carries(Define(ls, syms, n, j)[j], syms, n + 1, j)
  {
    OwnStep(syms, n, syms[n].name);
    if syms[n].bind.Global? {
      WeakFirst(syms, n, syms[n].name);
    }
  }

  // a weak definition in force is the first one of its name
  lemma {:induction false} WeakFirst(syms: seq<Sym>, n: nat, name: Name)
    requires n <= |syms| && Own(syms, n, name) != 0 && syms[Own(syms, n, name)].bind.Weak?
    ensures FirstBefore(syms, n, name) == Own(syms, n, name)
  {
  }

  // any other symbol
  lemma DefineOther(ls: seq<Lsym>, syms: seq<Sym>, n: nat, j: nat, k: nat)
    requires |ls| == |syms| && 1 <= n < |syms| && Defines(syms[n]) && j == Own(syms, n, syms[n].name)
    requires k < |syms| && k != n && (k == j ==> j == 0) && Carries(ls[k], syms, n, k)
    requires j != 0 && syms[n].bind.Global? ==> syms[j].bind.Weak?
    ensures j < n && Carries(Define(ls, syms, n, j)[k], syms, n + 1, k)
  {
    OwnStep(syms, n, syms[k].name);
  }

  lemma DefineOne(ls: seq<Lsym>, syms: seq<Sym>, n: nat, j: nat, k: nat)
    requires |ls| == |syms| && 1 <= n < |syms| && k < |syms|
    requires Carries(ls[k], syms, n, k) && (0 < j < n ==> Carries(ls[j], syms, n, j))
    requires j == if Defines(syms[n]) then Own(syms, n, syms[n].name) else 0
    requires j != 0 && syms[n].bind.Global? ==> syms[j].bind.Weak?
    ensures Carries(Define(ls, syms, n, j)[k], syms, n + 1, k)
  {
    hide Carries, Define, FirstBefore, StrongBefore;
    if !Defines(syms[n]) {
      DefineNone(ls, syms, n, k);
    } else if k == n {
      DefineNew(ls, syms, n, j);
    } else if k == j && j != 0 {
      DefineOld(ls, syms, n, j);
    } else {
      DefineOther(ls, syms, n, j, k);
    }
  }

  // no index that makes no sense, and no name with two strong definitions, before n
  ghost predicate Sane(syms: seq<Sym>, n: nat) {
    && (forall i | 1 <= i < n && i < |syms| :: !syms[i].place.Bad?)
    && (forall i, j | 1 <= i < j < n && j < |syms| :: !Clash(syms, i, j))
  }

  /** The first pass over the symbol table. */
  method Definitions(syms: seq<Sym>) returns (ok: bool, b: Hash, ls: seq<Lsym>)
    requires |syms| >= 1
    ensures ok <==> Sane(syms, |syms|)
    ensures ok ==> Faithful(b, syms, |syms|) && Carried(ls, syms, |syms|)
  {
    hide Carried, Faithful, Own, SymBlock.ElfHash, Define;
    b := Hash(seq(BUCKETS, _ => 0), seq(|syms|, _ => 0));
    ls := seq(|syms|, _ => Lsym(NoKind, 0, false));
    StartKeeps(b, ls, syms);
    var i := 1;
    while i < |syms|
      invariant 1 <= i <= |syms|
      invariant Sane(syms, i) && Faithful(b, syms, i) && Carried(ls, syms, i)
    {
      var s := syms[i];
      if s.place.Bad? {
        return false, b, ls;
      }
      CarriedSize(ls, syms, i);
      FaithfulSize(b, syms, i);
      var j := 0;
      if Defines(s) {
        j := OwnFind(b, syms, s.name, i);
        OwnIs(syms, i, s.name);
        if j != 0 && s.bind.Global? && syms[j].bind.Global? {
          assert Clash(syms, j, i);
          return false, b, ls;
        }
      }
      DefineKeeps(ls, syms, i, j);
      if !Defines(s) || (s.bind.Weak? && j != 0) {
        SkipKeeps(b, syms, i);
      } else {
        EnterKeeps(b, syms, i);
        var h := SymBlock.Hash(s.name);
        b := b.Insert(h % BUCKETS, i);
      }
      ls := Define(ls, syms, i, j);
      i := i + 1;
    }
    return true, b, ls;
  }

  lemma CarriedSize(ls: seq<Lsym>, syms: seq<Sym>, n: nat)
    requires Carried(ls, syms, n)
    ensures |ls| == |syms|
  {
  }

  lemma FaithfulSize(b: Hash, syms: seq<Sym>, n: nat)
    requires Faithful(b, syms, n)
    ensures b.Ok(|syms|)
  {
  }

  // a strong definition is the own one, so when the own one is weak or missing none came before
  lemma {:induction false} OwnIs(syms: seq<Sym>, n: nat, name: Name)
    requires n <= |syms|
    ensures Own(syms, n, name) == 0 || syms[Own(syms, n, name)].bind.Weak? ==> StrongBefore(syms, n, name) == 0
  {
  }

  lemma StartKeeps(b: Hash, ls: seq<Lsym>, syms: seq<Sym>)
    requires |syms| >= 1 && b.heads == seq(BUCKETS, _ => 0) && b.chain == seq(|syms|, _ => 0)
    requires ls == seq(|syms|, _ => Lsym(NoKind, 0, false))
    ensures Faithful(b, syms, 1) && Carried(ls, syms, 1)
  {
  }

  // ----- the second pass: undefined symbols and commons

  // the tables in the order they are asked: the last dependency first, the kernel last
  function Import(deps: seq<Table>, kernel: Option<Table>, name: Name): Option<nat> {
    if deps != [] then
      var last := deps[|deps|-1];
      if name in last then Some(last[name]) else Import(deps[..|deps|-1], kernel, name)
    else if kernel.Some? && name in kernel.value then Some(kernel.value[name])
    else None
  }

  // table t is the last of deps that has the name
  ghost predicate LastHaving(deps: seq<Table>, name: Name, t: nat) {
    t < |deps| && name in deps[t] && forall k | t < k < |deps| :: name !in deps[k]
  }

  /** An imported name has the value of the last-listed dependency that has it, whatever the others and the
      kernel say; that of the kernel when no dependency has it; and none when the kernel has not either. */
  lemma {:induction false} ImportIs(deps: seq<Table>, kernel: Option<Table>, name: Name)
    ensures forall t: nat | LastHaving(deps, name, t) :: Import(deps, kernel, name) == Some(deps[t][name])
    ensures (forall t | 0 <= t < |deps| :: name !in deps[t]) ==>
      (if kernel.Some? && name in kernel.value then Import(deps, kernel, name) == Some(kernel.value[name])
       else Import(deps, kernel, name).None?)
  {
    if deps != [] && name !in deps[|deps|-1] {
      var front := deps[..|deps|-1];
      ImportIs(front, kernel, name);
      forall t: nat | LastHaving(deps, name, t) ensures Import(deps, kernel, name) == Some(deps[t][name]) {
        assert LastHaving(front, name, t);
      }
    }
  }

  // what an undefined name resolves to
  ghost function Resolve(syms: seq<Sym>, deps: seq<Table>, kernel: Option<Table>, i: nat): Option<Lsym>
    requires i < |syms|
  {
    var name := syms[i].name;
    if Own(syms, |syms|, name) != 0 then Some(OwnValue(syms[Own(syms, |syms|, name)]))
    else if Import(deps, kernel, name).Some? then Some(Lsym(Absolute, Import(deps, kernel, name).value, false))
    else if syms[i].bind.Weak? then Some(Lsym(Absolute, 0, false))
    else None
  }

  function Alignment(s: Sym): (al: nat)
    ensures al > 0
  {
    if s.value == 0 then 1 else s.value
  }

  // a common the module has to allocate
  predicate OwnCommon(s: Sym, deps: seq<Table>, kernel: Option<Table>) {
    s.place.Common? && Import(deps, kernel, s.name).None?
  }

  // the end of the image after the commons before n
  function CommonEnd(syms: seq<Sym>, deps: seq<Table>, kernel: Option<Table>, start: nat, n: nat): (e: nat)
    requires n <= |syms|
    ensures e >= start
  {
    if n <= 1 then start
    else
      var e := CommonEnd(syms, deps, kernel, start, n - 1);
      if OwnCommon(syms[n-1], deps, kernel) then RoundUp(e, Alignment(syms[n-1])) + syms[n-1].size else e
  }

  predicate CommonOk(s: Sym, max: nat) {
    Pow2(Alignment(s)) && s.size <= max
  }

  // symbol i after both passes
  ghost predicate Final(l: Lsym, syms: seq<Sym>, deps: seq<Table>, kernel: Option<Table>, start: nat, i: nat)
    requires i < |syms|
  {
    match syms[i].place
    case Undef => Resolve(syms, deps, kernel, i) == Some(l)
    case Common =>
      l == (match Import(deps, kernel, syms[i].name)
            case Some(v) => Lsym(Absolute, v, false)
            case None => Lsym(Rel, RoundUp(CommonEnd(syms, deps, kernel, start, i), Alignment(syms[i])), true))
    case _ => Carries(l, syms, |syms|, i)
  }

  // the second pass meets nothing it refuses before n
  ghost predicate Resolvable(syms: seq<Sym>, deps: seq<Table>, kernel: Option<Table>, start: nat, max: nat, n: nat)
    requires n <= |syms|
  {
    && (forall i | 1 <= i < n && syms[i].place.Undef? :: Resolve(syms, deps, kernel, i).Some?)
    && CommonsFit(syms, deps, kernel, start, max, n)
  }

  ghost predicate CommonsFit(syms: seq<Sym>, deps: seq<Table>, kernel: Option<Table>, start: nat, max: nat, n: nat)
    requires n <= |syms|
  {
    && (forall i | 1 <= i < n && OwnCommon(syms[i], deps, kernel) :: CommonOk(syms[i], max))
    && (forall i | 1 <= i < n && OwnCommon(syms[i], deps, kernel) :: CommonEnd(syms, deps, kernel, start, i + 1) <= max)
  }

  lemma {:induction false} CommonGrows(syms: seq<Sym>, deps: seq<Table>, kernel: Option<Table>, start: nat, i: nat,
                                       j: nat)
    requires i <= j <= |syms|
    ensures CommonEnd(syms, deps, kernel, start, i) <= CommonEnd(syms, deps, kernel, start, j)
    decreases j - i
  {
    if i < j {
      CommonGrows(syms, deps, kernel, start, i, j - 1);
    }
  }

  /** The commons a module allocates come after its sections, in symbol order, apart from each
      other, aligned as each asks, inside the image. */
  lemma {:induction false} CommonsApart(syms: seq<Sym>, deps: seq<Table>, kernel: Option<Table>, start: nat,
                                        max: nat, i: nat, j: nat)
    requires 1 <= i < j < |syms| && CommonsFit(syms, deps, kernel, start, max, |syms|)
    requires OwnCommon(syms[i], deps, kernel) && OwnCommon(syms[j], deps, kernel)
    ensures var a := RoundUp(CommonEnd(syms, deps, kernel, start, i), Alignment(syms[i]));
      var c := RoundUp(CommonEnd(syms, deps, kernel, start, j), Alignment(syms[j]));
      && start <= a && a + syms[i].size <= c && c + syms[j].size <= max
      && c + syms[j].size <= CommonEnd(syms, deps, kernel, start, |syms|)
      && a % Alignment(syms[i]) == 0 && c % Alignment(syms[j]) == 0
  {
    CommonGrows(syms, deps, kernel, start, i + 1, j);
    CommonGrows(syms, deps, kernel, start, j + 1, |syms|);
  }

  // ----- what the symbols mean

  // s is a definition of the name that others can bind to
  predicate Binds(s: Sym, name: Name) {
    s.name == name && (s.place.Abs? || s.place.Section?) && !s.bind.Local?
  }

  // j is the definition of the name in force: a strong one, or the first when all are weak
  ghost predicate InForce(syms: seq<Sym>, name: Name, j: nat) {
    && 1 <= j < |syms| && Binds(syms[j], name)
    && (syms[j].bind.Global? ||
        forall k | 1 <= k < |syms| && Binds(syms[k], name) :: syms[k].bind.Weak? && j <= k)
  }

  // l is what the definition s says
  predicate Denotes(l: Lsym, s: Sym) {
    match s.place
    case Abs => l.kind.Absolute? && l.val == s.value
    case Section(off) => l.kind.Rel? && l.val == off + s.value
    case _ => false
  }

  // the last-listed dependency that has the name gives it v, or the kernel does and no dependency has it
  ghost predicate External(deps: seq<Table>, kernel: Option<Table>, name: Name, v: nat) {
    || (exists t: nat :: LastHaving(deps, name, t) && v == deps[t][name])
    || ((forall t | 0 <= t < |deps| :: name !in deps[t])
        && kernel.Some? && name in kernel.value && v == kernel.value[name])
  }

  /** What symbol i is in the end, said of the symbol table, the dependencies and the kernel alone. */
  ghost predicate Meant(l: Lsym, syms: seq<Sym>, deps: seq<Table>, kernel: Option<Table>, i: nat)
    requires i < |syms|
  {
    var s := syms[i];
    match s.place
    case Undef =>
      && !l.tab && (forall j: nat | InForce(syms, s.name, j) :: Denotes(l, syms[j]))
      && ((forall j | 1 <= j < |syms| :: !Binds(syms[j], s.name)) ==>
            if exists v: nat :: External(deps, kernel, s.name, v)
            then exists v: nat :: External(deps, kernel, s.name, v) && l == Lsym(Absolute, v, false)
            else s.bind.Weak? && l == Lsym(Absolute, 0, false))
    case Common =>
      if exists v: nat :: External(deps, kernel, s.name, v)
      then exists v: nat :: External(deps, kernel, s.name, v) && l == Lsym(Absolute, v, false)
      else l.kind.Rel? && l.tab
    case Unplaced => l == Lsym(NoKind, 0, false)
    case Bad => false
    case _ =>
      && (l.tab <==> InForce(syms, s.name, i))
      && (!s.bind.Weak? || l.tab ==> Denotes(l, s))
      && (exists j: nat :: j < |syms| && (j == i || Binds(syms[j], s.name)) && Denotes(l, syms[j]))
  }

  lemma {:induction false} ImportExternal(deps: seq<Table>, kernel: Option<Table>, name: Name)
    ensures forall v: nat :: External(deps, kernel, name, v) <==> Import(deps, kernel, name) == Some(v)
  {
    ImportIs(deps, kernel, name);
    if exists t | 0 <= t < |deps| :: name in deps[t] {
      var t := LastOne(deps, name);
      assert forall u: nat | LastHaving(deps, name, u) :: u == t;
    }
  }

  lemma {:induction false} LastOne(deps: seq<Table>, name: Name) returns (t: nat)
    requires exists t | 0 <= t < |deps| :: name in deps[t]
    ensures LastHaving(deps, name, t)
  {
    t := |deps| - 1;
    if name !in deps[t] {
      var front := deps[..t];
      var u :| 0 <= u < |deps| && name in deps[u];
      assert name in front[u];
      t := LastOne(front, name);
    }
  }

  // the definition in force is the linear specification's
  lemma InForceOwn(syms: seq<Sym>, name: Name, j: nat)
    requires Sane(syms, |syms|)
    ensures InForce(syms, name, j) <==> j == Own(syms, |syms|, name) != 0
    ensures Own(syms, |syms|, name) == 0 ==> forall k | 1 <= k < |syms| :: !Binds(syms[k], name)
  {
    var n, r := |syms|, StrongBefore(syms, |syms|, name);
    if 1 <= r && 1 <= j < n {
      assert !Clash(syms, j, r) && !Clash(syms, r, j);
    }
  }

  lemma FinalMeant(l: Lsym, syms: seq<Sym>, deps: seq<Table>, kernel: Option<Table>, start: nat, i: nat)
    requires Sane(syms, |syms|) && 1 <= i < |syms| && Final(l, syms, deps, kernel, start, i)
    ensures Meant(l, syms, deps, kernel, i)
  {
    hide External, Import, Own, InForce;
    var s := syms[i];
    ImportExternal(deps, kernel, s.name);
    forall j: nat ensures InForce(syms, s.name, j) <==> j == Own(syms, |syms|, s.name) != 0 {
      InForceOwn(syms, s.name, j);
    }
    InForceOwn(syms, s.name, 0);
    if Placed(s) {
      FinalPlaced(l, syms, i);
    }
  }

  // symbol k is a common the module has allocated
  predicate OwnAt(ls: seq<Lsym>, syms: seq<Sym>, k: nat)
    requires k < |ls| == |syms|
  {
    syms[k].place.Common? && ls[k].tab
  }

  // where the last of them before n ends, as they lie; start when there is none
  function Ends(ls: seq<Lsym>, syms: seq<Sym>, start: nat, n: nat): nat
    requires n <= |ls| == |syms|
  {
    if n <= 1 then start
    else if OwnAt(ls, syms, n - 1) then ls[n-1].val + syms[n-1].size
    else Ends(ls, syms, start, n - 1)
  }

  /** Each common the module allocates is at the first place that is aligned as it asks after the one before
      it, the first one after the sections; the image ends with the last. */
  ghost predicate Snug(ls: seq<Lsym>, syms: seq<Sym>, start: nat, imgsz: nat) {
    && |ls| == |syms| && imgsz == Ends(ls, syms, start, |syms|)
    && forall i | 1 <= i < |syms| && OwnAt(ls, syms, i) ::
         var al, end := if syms[i].value == 0 then 1 else syms[i].value, Ends(ls, syms, start, i);
         ls[i].kind.Rel? && ls[i].val % al == 0 && end <= ls[i].val < end + al
  }

  lemma {:induction false} FinalTab(l: Lsym, syms: seq<Sym>, deps: seq<Table>, kernel: Option<Table>, start: nat,
                                    i: nat)
    requires i < |syms| && Final(l, syms, deps, kernel, start, i) && syms[i].place.Common?
    ensures l.tab <==> OwnCommon(syms[i], deps, kernel)
    ensures l.tab ==> l == Lsym(Rel, RoundUp(CommonEnd(syms, deps, kernel, start, i), Alignment(syms[i])), true)
  {
  }

  lemma {:induction false} FinalEnds(ls: seq<Lsym>, syms: seq<Sym>, deps: seq<Table>, kernel: Option<Table>,
                                     start: nat, n: nat)
    requires |ls| == |syms| && n <= |syms|
    requires forall i | 1 <= i < |syms| :: Final(ls[i], syms, deps, kernel, start, i)
    ensures Ends(ls, syms, start, n) == CommonEnd(syms, deps, kernel, start, n)
  {
    hide Final, RoundUp;
    if n > 1 {
      FinalEnds(ls, syms, deps, kernel, start, n - 1);
      if syms[n - 1].place.Common? {
        FinalTab(ls[n - 1], syms, deps, kernel, start, n - 1);
      }
    }
  }

  lemma {:induction false} FinalSnug(ls: seq<Lsym>, syms: seq<Sym>, deps: seq<Table>, kernel: Option<Table>, start: nat)
    requires |ls| == |syms| >= 1
    requires forall i | 1 <= i < |syms| :: Final(ls[i], syms, deps, kernel, start, i)
    ensures Snug(ls, syms, start, CommonEnd(syms, deps, kernel, start, |syms|))
  {
    hide Final, RoundUp;
    FinalEnds(ls, syms, deps, kernel, start, |syms|);
    forall i | 1 <= i < |syms| && OwnAt(ls, syms, i)
      ensures var al, end := if syms[i].value == 0 then 1 else syms[i].value, Ends(ls, syms, start, i);
        ls[i].kind.Rel? && ls[i].val % al == 0 && end <= ls[i].val < end + al
    {
      FinalEnds(ls, syms, deps, kernel, start, i);
      FinalTab(ls[i], syms, deps, kernel, start, i);
    }
  }

  lemma FinalPlaced(l: Lsym, syms: seq<Sym>, i: nat)
    requires 1 <= i < |syms| && Placed(syms[i]) && Carries(l, syms, |syms|, i)
    ensures l.tab <==> Defines(syms[i]) && Own(syms, |syms|, syms[i].name) == i
    ensures !syms[i].bind.Weak? || l.tab ==> Denotes(l, syms[i])
    ensures exists j: nat :: j < |syms| && (j == i || Binds(syms[j], syms[i].name)) && Denotes(l, syms[j])
  {
    var t := Target(syms, |syms|, i);
    assert t == i || t == 0 || Binds(syms[t], syms[i].name);
  }

  // the search of the tables, last dependency first
  method Lookup(deps: seq<Table>, kernel: Option<Table>, name: Name) returns (v: Option<nat>)
    ensures v == Import(deps, kernel, name)
  {
    var j := |deps|;
    assert deps[..|deps|] == deps;
    while j > 0
      invariant 0 <= j <= |deps| && Import(deps[..j], kernel, name) == Import(deps, kernel, name)
    {
      j := j - 1;
      assert deps[..j + 1][..j] == deps[..j];
      if name in deps[j] {
        return Some(deps[j][name]);
      }
    }
    return if kernel.Some? && name in kernel.value then Some(kernel.value[name]) else None;
  }

  // between two symbols of the second pass
  ghost predicate Importing(l: Lsym, syms: seq<Sym>, deps: seq<Table>, kernel: Option<Table>, start: nat, n: nat,
                            i: nat)
    requires i < |syms|
  {
    if 1 <= i < n then
      Final(l, syms, deps, kernel, start, i)
      || (syms[i].place.Undef? && Resolve(syms, deps, kernel, i).None? && l.kind.NoKind?)
    else Carries(l, syms, |syms|, i)
  }

  // what ownfind leads to is the own definition itself
  lemma OwnCarries(l: Lsym, syms: seq<Sym>, name: Name)
    requires var j := Own(syms, |syms|, name); j != 0 && Carries(l, syms, |syms|, j)
    ensures var j := Own(syms, |syms|, name);
      l.kind == OwnValue(syms[j]).kind && l.val == OwnValue(syms[j]).val && !OwnValue(syms[j]).tab
  {
  }

  // the value the second pass gives symbol i, and the end of the image after it
  method ImportOne(syms: seq<Sym>, b: Hash, ls: seq<Lsym>, deps: seq<Table>, kernel: Option<Table>,
                   start: nat, cur: nat, max: nat, i: nat)
    returns (err: Option<LdErr>, l: Option<Lsym>, end: nat)
    requires 1 <= i < |syms| == |ls| && (syms[i].place.Undef? || syms[i].place.Common?)
    requires Faithful(b, syms, |syms|) && cur == CommonEnd(syms, deps, kernel, start, i)
    requires forall k | 0 <= k < |ls| && Placed(syms[k]) :: Carries(ls[k], syms, |syms|, k)
    ensures err.None? <==> (OwnCommon(syms[i], deps, kernel) ==>
      CommonOk(syms[i], max) && CommonEnd(syms, deps, kernel, start, i + 1) <= max)
    ensures err.None? ==> end == CommonEnd(syms, deps, kernel, start, i + 1)
    ensures err.None? && l.Some? ==> Final(l.value, syms, deps, kernel, start, i)
    ensures err.None? && l.None? ==> syms[i].place.Undef? && Resolve(syms, deps, kernel, i).None?
  {
    hide Faithful, Carries, Own, CommonOk;
    var s := syms[i];
    end := cur;
    if s.place.Undef? {
      var j := OwnFind(b, syms, s.name, |syms|);
      OwnPlaced(syms, s.name);
      if j != 0 {
        OwnCarries(ls[j], syms, s.name);
        return None, Some(Lsym(ls[j].kind, ls[j].val, false)), end;
      }
    }
    var found := Lookup(deps, kernel, s.name);
    if found.Some? {
      return None, Some(Lsym(Absolute, found.value, false)), end;
    }
    if s.place.Common? {
      var al := Alignment(s);
      if !Pow2(al) {
        NotOk(s, max);
        return Some(ERELOC), None, end;
      }
      if s.size > max {
        NotOk(s, max);
        return Some(ENOMEM), None, end;
      }
      var o := RoundUp(cur, al);
      end := o + s.size;
      if end > max {
        return Some(ENOMEM), None, end;
      }
      IsOk(s, max);
      return None, Some(Lsym(Rel, o, true)), end;
    }
    l := if s.bind.Weak? then Some(Lsym(Absolute, 0, false)) else None;
    err := None;
  }

  lemma NotOk(s: Sym, max: nat)
    requires !Pow2(Alignment(s)) || s.size > max
    ensures !CommonOk(s, max)
  {
  }

  lemma IsOk(s: Sym, max: nat)
    requires Pow2(Alignment(s)) && s.size <= max
    ensures CommonOk(s, max)
  {
  }

  lemma OwnPlaced(syms: seq<Sym>, name: Name)
    ensures Own(syms, |syms|, name) == 0 || Placed(syms[Own(syms, |syms|, name)])
  {
  }

  /** dlm_ld_syms, on a symbol table read and named: it succeeds exactly when no index is bad, no
      name has two strong definitions, every undefined name resolves and the commons fit; and then
      every symbol is what the linear specification says. */
  method LoadSyms(syms: seq<Sym>, start: nat, deps: seq<Table>, kernel: Option<Table>, max: nat)
    returns (err: Option<LdErr>, ls: seq<Lsym>, imgsz: nat)
    requires |syms| >= 1
    ensures err.None? <==> Sane(syms, |syms|) && Resolvable(syms, deps, kernel, start, max, |syms|)
    ensures err.None? ==> |ls| == |syms| && imgsz == CommonEnd(syms, deps, kernel, start, |syms|)
    ensures err.None? ==> forall i | 1 <= i < |syms| :: Final(ls[i], syms, deps, kernel, start, i)
    ensures err.None? ==> Snug(ls, syms, start, imgsz)
    ensures err.None? ==> forall i | 1 <= i < |syms| :: Meant(ls[i], syms, deps, kernel, i)
  {
    hide Faithful, Carries, Own, CommonOk, Resolve, Final, CommonEnd, OwnCommon, Snug, Meant;
    var ok, b;
    ok, b, ls := Definitions(syms);
    if !ok {
      return Some(ERELOC), ls, 0;
    }
    var cur, nundef := start, 0;
    CommonStart(syms, deps, kernel, start);
    var i := 1;
    while i < |syms|
      invariant 1 <= i <= |syms| == |ls| && cur == CommonEnd(syms, deps, kernel, start, i)
      invariant CommonsFit(syms, deps, kernel, start, max, i)
      invariant forall k | 0 <= k < |ls| :: Importing(ls[k], syms, deps, kernel, start, i, k)
      invariant nundef == 0 <==> forall k | 1 <= k < i && syms[k].place.Undef? :: Resolve(syms, deps, kernel, k).Some?
    {
      assert Importing(ls[i], syms, deps, kernel, start, i, i);
      if syms[i].place.Undef? || syms[i].place.Common? {
        PlacedKept(ls, syms, deps, kernel, start, i);
        var e, l, end := ImportOne(syms, b, ls, deps, kernel, start, cur, max, i);
        if e.Some? {
          return e, ls, cur;
        }
        cur := end;
        if l.Some? {
          FinalResolves(l.value, syms, deps, kernel, start, i);
          ls := ls[i := l.value];
        } else {
          UnsetCarries(ls[i], syms, i);
          nundef := nundef + 1;
        }
      } else {
        OtherFinal(ls[i], syms, deps, kernel, start, i);
      }
      i := i + 1;
    }
    imgsz := cur;
    err := if nundef > 0 then Some(ERELOC) else None;
    if err.None? {
      AllFinal(ls, syms, deps, kernel, start);
      FinalSnug(ls, syms, deps, kernel, start);
      forall i | 1 <= i < |syms| ensures Meant(ls[i], syms, deps, kernel, i) {
        FinalMeant(ls[i], syms, deps, kernel, start, i);
      }
    }
  }

  lemma {:induction false} CommonStart(syms: seq<Sym>, deps: seq<Table>, kernel: Option<Table>, start: nat)
    requires |syms| >= 1
    ensures CommonEnd(syms, deps, kernel, start, 1) == start
  {
  }

  lemma PlacedKept(ls: seq<Lsym>, syms: seq<Sym>, deps: seq<Table>, kernel: Option<Table>, start: nat, i: nat)
    requires |ls| == |syms| && forall k | 0 <= k < |ls| :: Importing(ls[k], syms, deps, kernel, start, i, k)
    ensures forall k | 0 <= k < |ls| && Placed(syms[k]) :: Carries(ls[k], syms, |syms|, k)
  {
  }

  lemma FinalResolves(l: Lsym, syms: seq<Sym>, deps: seq<Table>, kernel: Option<Table>, start: nat, i: nat)
    requires i < |syms| && Final(l, syms, deps, kernel, start, i)
    ensures syms[i].place.Undef? ==> Resolve(syms, deps, kernel, i).Some?
  {
  }

  lemma UnsetCarries(l: Lsym, syms: seq<Sym>, i: nat)
    requires i < |syms| && Carries(l, syms, |syms|, i) && !Placed(syms[i])
    ensures l.kind.NoKind?
  {
  }

  // a symbol the second pass passes over is final, and ends no common
  lemma OtherFinal(l: Lsym, syms: seq<Sym>, deps: seq<Table>, kernel: Option<Table>, start: nat, i: nat)
    requires 1 <= i < |syms| && Carries(l, syms, |syms|, i) && !syms[i].place.Undef? && !syms[i].place.Common?
    ensures Final(l, syms, deps, kernel, start, i) && !OwnCommon(syms[i], deps, kernel)
    ensures CommonEnd(syms, deps, kernel, start, i + 1) == CommonEnd(syms, deps, kernel, start, i)
  {
  }

  lemma AllFinal(ls: seq<Lsym>, syms: seq<Sym>, deps: seq<Table>, kernel: Option<Table>, start: nat)
    requires |ls| == |syms|
    requires forall k | 0 <= k < |ls| :: Importing(ls[k], syms, deps, kernel, start, |syms|, k)
    requires forall k | 1 <= k < |syms| && syms[k].place.Undef? :: Resolve(syms, deps, kernel, k).Some?
    ensures forall k | 1 <= k < |syms| :: Final(ls[k], syms, deps, kernel, start, k)
  {
  }
}
